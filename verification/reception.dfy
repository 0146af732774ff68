/**
 Reception statistics of a receiving stream (rtprecvstream.cpp, rtputil.cpp; sections 6.4.1, A.1
 and A.3 of RFC 3550): the highest extended sequence number, loss figures of the report blocks,
 and the time stamps for the round-trip delay.
 */
module Reception {
  import opened Outcomes
  import opened Machine
  import NtpClock

  // ----- 16-bit sequence numbers -----

  function Min16(x: u16, y: u16): u16 {
    if (x <= y && x > y - 0x8000) || x >= y + 0x8000 then x else y
  }

  predicate Wrap16(x: u16, y: u16) {
    x < y - 0x8000 || y < x - 0x8000
  }

  /** How far seq lies ahead of the extended number highest, counted round the 16-bit circle. */
  function Ahead(highest: nat, seq_: u16): u16 { ToU16(seq_ - highest) }

  /** Exactly opposite on the circle, with highest in the upper half of its cycle. */
  predicate StepsBack(highest: nat, seq_: u16) {
    Ahead(highest, seq_) == 0x8000 && highest % 0x1_0000 >= 0x8000
  }

  /** The packets counted as new: strictly less than half a turn ahead, or stepping back. */
  predicate Counts(highest: nat, seq_: u16) {
    0 < Ahead(highest, seq_) < 0x8000 || StepsBack(highest, seq_)
  }

  /** The extended number the stream goes on with. */
  function Track(highest: nat, seq_: u16): nat {
    if StepsBack(highest, seq_) then highest - 0x8000
    else if Counts(highest, seq_) then highest + Ahead(highest, seq_)
    else highest
  }

  /** Min16 and Wrap16, on two numbers of 16 bits, decide like distances on the circle. */
  lemma CircleDistance(highest: nat, seq_: u16)
    ensures var last := ToU16(highest);
            && (seq_ == Min16(seq_, last) <==> !Counts(highest, seq_))
            && (Counts(highest, seq_) ==>
                  Track(highest, seq_) == (highest / 0x1_0000 + if Wrap16(last, seq_) then 1 else 0) * 0x1_0000 + seq_)
  {
    var last, cycles := ToU16(highest), highest / 0x1_0000;
    assert highest == cycles * 0x1_0000 + last;
    assert Ahead(highest, seq_) == if seq_ >= last then seq_ - last else seq_ - last + 0x1_0000;
  }

  lemma LowWord(x: nat, d: int)
    ensures ToU32(ToU32(x) + d) == ToU32(x + d)
  {
    NtpClock.SameTurn(ToU32(x) + d, x + d, -(x / 0x1_0000_0000));
  }

  lemma CyclesAndSequence(cycles: nat, seq_: u16)
    ensures ToU16(cycles * 0x1_0000 + seq_) == seq_ && (cycles * 0x1_0000 + seq_) / 0x1_0000 == cycles
  {
  }

  lemma NextCycle(cycles: nat)
    ensures ToU16(cycles + 1) == ToU16(ToU16(cycles) + 1) && ToU16(cycles + 0) == ToU16(cycles)
  {
  }

  lemma TrackInWords(highest: nat, seq_: u16)
    requires Counts(highest, seq_)
    ensures var next, cycles := Track(highest, seq_), ToU16(highest / 0x1_0000);
            && ToU16(next) == seq_
            && ToU16(next / 0x1_0000) == if Wrap16(ToU16(highest), seq_) then ToU16(cycles + 1) else cycles
  {
    hide Counts, Wrap16, Track, ToU16;
    CircleDistance(highest, seq_);
    CyclesAndSequence(highest / 0x1_0000 + if Wrap16(ToU16(highest), seq_) then 1 else 0, seq_);
    NextCycle(highest / 0x1_0000);
  }

  lemma ExtendedInWords(highest: nat)
    ensures ToU32(ToU16(highest) + ToU32(ToU16(highest / 0x1_0000) as int * 0x1_0000)) == ToU32(highest)
  {
    var cycles := highest / 0x1_0000;
    NtpClock.SameTurn(ToU16(cycles) as int * 0x1_0000 + ToU16(highest), highest, -(cycles / 0x1_0000));
    LowWord(ToU16(cycles) as int * 0x1_0000, ToU16(highest));
  }

  lemma FirstInWords(seq_: u16)
    ensures ToU16(seq_) == seq_ && ToU16(seq_ / 0x1_0000) == 0 && ToU32(0) == 0 && ToU32(1) == 1 && ToU32(0 + 1) == 1
  {
  }

  function Max(a: int, b: int): int { if a < b then b else a }

  lemma AheadOfTrue(highest: nat, e: int)
    ensures Ahead(highest, ToU16(e)) == (e - highest) % 0x1_0000
  {
    var q := e / 0x1_0000;
    var r := ToU16(e) - highest;
    assert e - highest == r + q * 0x1_0000;
    assert e - highest == (r / 0x1_0000 + q) * 0x1_0000 + r % 0x1_0000;
  }

  lemma CircleOf(d: int)
    ensures d > 0 ==> (d % 0x1_0000 == d <==> d < 0x1_0000)
    ensures (-d) % 0x1_0000 == if d % 0x1_0000 == 0 then 0 else 0x1_0000 - d % 0x1_0000
  {
  }

  /**
   The packet with true extended number e leaves the highest number right exactly if it is less
   than half a turn ahead, or behind by a distance whose remainder on the circle is less than half
   a turn (or half a turn, with highest in the lower half of its cycle).
   */
  lemma TrackIsMaximum(highest: nat, e: int)
    ensures Track(highest, ToU16(e)) == Max(highest, e) <==>
            if e > highest then e - highest < 0x8000
            else
              var behind := (highest - e) % 0x1_0000;
              behind < 0x8000 || (behind == 0x8000 && highest % 0x1_0000 < 0x8000)
  {
    var d := e - highest;
    AheadOfTrue(highest, e);
    CircleOf(d);
    hide Ahead, ToU16;
  }

  // ----- Loss accounting, on unbounded numbers -----

  /** A stream since its first packet: what arrived, and what the last report said. */
  datatype Stats =
    | Silent
    | Heard(first: u16, highest: nat, received: nat, reportedExpected: nat, reportedReceived: nat)
  {
    /** Packets expected since the first; negative after steps back. */
    function Expected(): int
      requires Heard?
    {
      highest - first + 1
    }
  }

  function Arrive(s: Stats, seq_: u16): Stats {
    match s
    case Silent => Heard(seq_, seq_, 1, 0, 0)
    case Heard(_, highest, received, _, _) =>
      if Counts(highest, seq_) then s.(highest := Track(highest, seq_), received := received + 1) else s
  }

  /** The loss figures of one report. */
  datatype Loss = Loss(cumulative: nat, interval: nat, expected: nat, fraction: u8)

  predicate Sound(s: Stats) {
    s.Heard? ==>
      && s.received <= s.Expected()
      && s.reportedReceived <= s.received
      && s.reportedExpected <= s.Expected()
      && s.received - s.reportedReceived <= s.Expected() - s.reportedExpected
      && (s.received == s.reportedReceived ==> s.Expected() == s.reportedExpected)
  }

  /** Section A.3 of RFC 3550: the fraction is 256 times lost over expected, rounded down. */
  function Losses(s: Stats): (l: Loss)
    requires s.Heard? && Sound(s)
    ensures l.expected > 0 ==>
              l.interval < l.expected && l.fraction * l.expected <= 0x100 * l.interval < (l.fraction + 1) * l.expected
  {
    var cumulative, expected := s.Expected() - s.received, s.Expected() - s.reportedExpected;
    var interval := expected - (s.received - s.reportedReceived);
    FractionFits(interval, expected);
    Loss(cumulative, interval, expected, if expected == 0 then 0 else 0x100 * interval / expected)
  }

  /** In an interval with packets expected at least one came, so 256ths lost are at most 255. */
  lemma FractionFits(lost: nat, expected: nat)
    requires expected > 0 ==> lost < expected
    ensures expected > 0 ==>
              var f := 0x100 * lost / expected;
              0 <= f < 0x100 && f * expected <= 0x100 * lost < (f + 1) * expected
  {
    if expected > 0 {
      var f := 0x100 * lost / expected;
      assert f * expected + 0x100 * lost % expected == 0x100 * lost;
      assert (f + 1) * expected == f * expected + expected;
      assert f < 0x100 by {
        assert 0x100 * lost < 0x100 * expected;
      }
    }
  }

  function Reported(s: Stats): Stats
    requires s.Heard? && Sound(s)
  {
    s.(reportedExpected := s.Expected(), reportedReceived := s.received)
  }

  // ----- The figures in 32-bit words -----

  /** What a report says of losses, and what the stream keeps for the next. */
  datatype LossWords = LossWords(cumulative: u32, fraction: u8, expected: u32, wraps: u32)

  function InWords(expected: u32, received: u32, wraps: u32, lastExpected: u32, lastReceived: u32): LossWords {
    var wrapped := expected >= received && ToU32(expected + 0x1_0000 * wraps) < lastExpected;
    var wraps' := if wrapped then ToU32(wraps + 1) else wraps;
    var expected' := if expected < received then expected else ToU32(expected + 0x1_0000 * wraps');
    var cumulative := if expected < received then 0 else ToU32(expected' - received);
    var interval := ToU32(expected' - lastExpected);
    var lost := ToU32(interval - ToU32(received - lastReceived));
    var fraction := if interval == 0 || lost == 0 then 0 else ToU32(lost as int * 0x100) / interval % 0x100;
    LossWords(cumulative, fraction, expected', wraps')
  }

  // ----- The stream object -----

  datatype ReportBlock = ReportBlock(
    ssrc: u32, fractionLost: u8, cumNumPacketsLost: u32, seqNumReceived: u32, arrivalJitter: u32,
    lastSR: u32, delaySinceLSR: u32)

  class RecvStream {
    var iFlagFirstPkg: bool
    var iRemoteSSRC: u32
    var iBaseSeqNum: u16
    var iSeqNum: u16
    var iSeqNumCycles: u16
    var iNumReceivedPackets: u32
    var iNumWrapAround: u32
    var iLastRR_numExpectedPackets: u32
    var iLastRR_numReceivedPackets: u32
    var iSyncInfo: NtpClock.SyncInfo

    /** The fields are the low bits of the unbounded figures. */
    ghost predicate Represents(s: Stats)
      reads this
    {
      && iNumWrapAround == 0
      && match s
         case Silent =>
           && iFlagFirstPkg && iSeqNumCycles == 0 && iNumReceivedPackets == 0
           && iLastRR_numExpectedPackets == 0 && iLastRR_numReceivedPackets == 0
         case Heard(first, highest, received, reportedExpected, reportedReceived) =>
           && !iFlagFirstPkg && iBaseSeqNum == first
           && iSeqNum == ToU16(highest) && iSeqNumCycles == ToU16(highest / 0x1_0000)
           && iNumReceivedPackets == ToU32(received)
           && iLastRR_numExpectedPackets == ToU32(reportedExpected)
           && iLastRR_numReceivedPackets == ToU32(reportedReceived)
    }

    constructor ()
      ensures Represents(Silent) && iRemoteSSRC == 0
      ensures iSyncInfo == NtpClock.SyncInfo(0, 0, 0)
    {
      iFlagFirstPkg := true;
      iRemoteSSRC, iBaseSeqNum, iSeqNum, iSeqNumCycles := 0, 0, 0, 0;
      iNumReceivedPackets, iNumWrapAround := 0, 0;
      iLastRR_numExpectedPackets, iLastRR_numReceivedPackets := 0, 0;
      iSyncInfo := NtpClock.SyncInfo(0, 0, 0);
    }

    /**
     RtpStreamUpdateParamL for an RTP packet.  collision is the answer of the SSRC collision check
     and ssrc the source identifier after it.
     */
    method UpdateParamL(collision: int, ssrc: u32, seq_: u16, ghost s: Stats) returns (r: Result<()>)
      requires Represents(s)
      modifies this
      ensures iSyncInfo == old(iSyncInfo)
      ensures r == if collision < 0 then Leave(Corrupt)
                   else if s.Heard? && collision == 0 && ssrc != old(iRemoteSSRC) then Leave(NotFound)
                   else Ok(())
      ensures r.Ok? ==> Represents(Arrive(s, seq_)) && iRemoteSSRC == ssrc
      ensures r.Leave? ==> Represents(s) && iRemoteSSRC == old(iRemoteSSRC)
    {
      hide Track, Counts, Min16, Wrap16, ToU16, ToU32, Ahead, StepsBack;
      if collision < 0 {
        return Leave(Corrupt);
      }
      if collision > 0 {
        iRemoteSSRC := ssrc;
      }
      if iFlagFirstPkg {
        iRemoteSSRC := ssrc;
        iBaseSeqNum := seq_;
      } else if iRemoteSSRC != ssrc {
        return Leave(NotFound);
      } else {
        CircleDistance(s.highest, seq_);
        if Counts(s.highest, seq_) {
          TrackInWords(s.highest, seq_);
        }
        LowWord(s.received, 1);
      }
      if seq_ == Min16(seq_, iSeqNum) && !iFlagFirstPkg {
        return Ok(());
      }
      FirstInWords(seq_);
      if Wrap16(iSeqNum, seq_) && !iFlagFirstPkg {
        iSeqNumCycles := ToU16(iSeqNumCycles + 1);
      }
      iSeqNum := seq_;
      iFlagFirstPkg := false;
      iNumReceivedPackets := ToU32(iNumReceivedPackets + 1);
      return Ok(());
    }

    /** The part of RtpStreamProcessRtcpReportSectionL that keeps the clock of an SR. */
    method ProcessSR(sec: u32, frac: u32, now: u32, ghost s: Stats)
      requires Represents(s)
      modifies this`iSyncInfo
      ensures Represents(s) && iSyncInfo == NtpClock.SyncInfo(sec, frac, now)
    {
      iSyncInfo := NtpClock.SyncInfo(sec, frac, now);
    }

    /** The figures of the next report. */
    ghost function Figures(): LossWords
      reads this
    {
      InWords(ToU32(ToU32(iSeqNum + ToU32(iSeqNumCycles as int * 0x1_0000)) - iBaseSeqNum + 1), iNumReceivedPackets,
              iNumWrapAround, iLastRR_numExpectedPackets, iLastRR_numReceivedPackets)
    }

    /** The loss computation of RtpStreamCreateRtcpReportSection, in 32-bit words. */
    method LossFigures(seqNumReceived: u32) returns (cumulative: u32, fraction: u8)
      requires seqNumReceived == ToU32(iSeqNum + ToU32(iSeqNumCycles as int * 0x1_0000))
      modifies this`iNumWrapAround, this`iLastRR_numReceivedPackets, this`iLastRR_numExpectedPackets
      ensures var w := old(Figures());
              && cumulative == w.cumulative && fraction == w.fraction
              && iNumWrapAround == w.wraps && iLastRR_numExpectedPackets == w.expected
      ensures iLastRR_numReceivedPackets == iNumReceivedPackets
    {
      hide ToU32;
      var expected := ToU32(seqNumReceived - iBaseSeqNum + 1);
      if expected < iNumReceivedPackets {
        cumulative := 0;
      } else {
        if ToU32(expected + 0x1_0000 * iNumWrapAround) < iLastRR_numExpectedPackets {
          iNumWrapAround := ToU32(iNumWrapAround + 1);
          expected := ToU32(expected + 0x1_0000 * iNumWrapAround);
        } else {
          expected := ToU32(expected + 0x1_0000 * iNumWrapAround);
        }
        cumulative := ToU32(expected - iNumReceivedPackets);
      }
      var intervalExpected := ToU32(expected - iLastRR_numExpectedPackets);
      var intervalLost := ToU32(intervalExpected - ToU32(iNumReceivedPackets - iLastRR_numReceivedPackets));
      if intervalExpected == 0 || intervalLost == 0 {
        fraction := 0;
      } else {
        fraction := ToU32(intervalLost as int * 0x100) / intervalExpected % 0x100;
      }
      iLastRR_numReceivedPackets := iNumReceivedPackets;
      iLastRR_numExpectedPackets := expected;
    }

    /**
     RtpStreamCreateRtcpReportSection, without the copies for the application; jitter is the
     floating-point estimate.  While the words hold the unbounded figures and those are in range, the
     report tells the true losses.
     */
    method CreateReport(now: u32, jitter: u32, ghost s: Stats) returns (block: ReportBlock)
      modifies this
      ensures iSyncInfo == old(iSyncInfo) && iRemoteSSRC == old(iRemoteSSRC)
      ensures block.ssrc == iRemoteSSRC && block.arrivalJitter == jitter
      ensures block.lastSR == NtpClock.Middle32(iSyncInfo.sec, iSyncInfo.frac)
      ensures block.delaySinceLSR == NtpClock.DelaySince(now, iSyncInfo.localTime)
      ensures block.cumNumPacketsLost == old(Figures()).cumulative && block.fractionLost == old(Figures()).fraction
      ensures s.Heard? && old(Represents(s)) ==> block.seqNumReceived == ToU32(s.highest)
      ensures old(Represents(s)) && InRange(s) ==>
                && Represents(Reported(s))
                && block.cumNumPacketsLost == Losses(s).cumulative
                && block.fractionLost == Losses(s).fraction
    {
      hide ToU16, ToU32, Sound, Losses, NtpClock.Middle32, NtpClock.DelaySince, InWords;
      ghost var inWords := s.Heard? && Represents(s);
      var seqNumReceived := ToU32(iSeqNum + ToU32(iSeqNumCycles as int * 0x1_0000));
      if inWords {
        ExtendedInWords(s.highest);
        LowWord(s.highest, 1 - s.first);
        if InRange(s) {
          InWordsInRange(s);
        }
      }
      var cumulative, fraction := LossFigures(seqNumReceived);
      block := ReportBlock(
        iRemoteSSRC, fraction, cumulative, seqNumReceived, jitter,
        NtpClock.Middle32(iSyncInfo.sec, iSyncInfo.frac), NtpClock.DelaySince(now, iSyncInfo.localTime));
    }
  }

  /** Fewer than 2^32 packets expected, and fewer than 2^24 lost in the interval. */
  ghost predicate InRange(s: Stats) {
    s.Heard? && Sound(s) && s.Expected() < 0x1_0000_0000 && Losses(s).interval < 0x100_0000
  }

  lemma Fits(x: int)
    requires 0 <= x < 0x1_0000_0000
    ensures ToU32(x) == x
  {
  }

  /** In range, no 32-bit step of the loss computation loses anything. */
  lemma WordsInRange(s: Stats)
    requires InRange(s)
    ensures ToU32(ToU32(s.highest) - s.first + 1) == s.Expected()
    ensures s.Expected() + 0x1_0000 * 0 == s.Expected() == ToU32(s.Expected())
    ensures ToU32(s.received) == s.received <= s.Expected()
    ensures ToU32(s.reportedReceived) == s.reportedReceived <= s.received
    ensures ToU32(s.reportedExpected) == s.reportedExpected <= s.Expected()
    ensures ToU32(s.Expected() - s.received) == s.Expected() - s.received
    ensures ToU32(s.Expected() - s.reportedExpected) == s.Expected() - s.reportedExpected
    ensures ToU32(s.received - s.reportedReceived) == s.received - s.reportedReceived
  {
    hide Losses, ToU32;
    LowWord(s.highest, 1 - s.first);
    Fits(s.Expected());
    Fits(s.received);
    Fits(s.reportedReceived);
    Fits(s.reportedExpected);
    Fits(s.Expected() - s.received);
    Fits(s.Expected() - s.reportedExpected);
    Fits(s.received - s.reportedReceived);
  }

  lemma LossesInWords(s: Stats)
    requires InRange(s)
    ensures var expected := s.Expected() - s.reportedExpected;
            var interval := expected - (s.received - s.reportedReceived);
            && 0 <= interval
            && ToU32(interval) == interval && ToU32(interval * 0x100) == interval * 0x100
            && Losses(s).cumulative == s.Expected() - s.received
            && Losses(s).fraction == if expected == 0 || interval == 0 then 0 else interval * 0x100 / expected % 0x100
  {
  }

  /** In range, the words are the figures, and the wrap-around correction stays at 0. */
  lemma InWordsInRange(s: Stats)
    requires InRange(s)
    ensures InWords(ToU32(s.Expected()), ToU32(s.received), 0, ToU32(s.reportedExpected), ToU32(s.reportedReceived)) ==
            LossWords(Losses(s).cumulative, Losses(s).fraction, ToU32(s.Expected()), 0)
  {
    hide Losses, ToU32, Sound;
    WordsInRange(s);
    LossesInWords(s);
  }

  /** The cumulative loss is right exactly if it fits 32 bits and the number of packets expected has not
      passed a multiple of 2^32 that the number received, or the number at the last report, has not. */
  lemma CumulativeExactly(s: Stats)
    requires s.Heard? && Sound(s)
    ensures InWords(ToU32(s.Expected()), ToU32(s.received), 0, ToU32(s.reportedExpected), ToU32(s.reportedReceived)).cumulative
            == s.Expected() - s.received <==>
            && s.Expected() - s.received < 0x1_0000_0000
            && ToU32(s.received) <= ToU32(s.Expected()) && ToU32(s.reportedExpected) <= ToU32(s.Expected())
  {
    var e, r := ToU32(s.Expected()), ToU32(s.received);
    LowDifference(s.Expected(), s.received);
    LowDifference(e, r);
    assert ToU32(e + 0x1_0000 * 0) == e;
    if e >= r && e < ToU32(s.reportedExpected) {
      WrapMoves(e, r);
    }
  }

  /** 2^32 packets are expected and five of them are lost: the report says none. */
  lemma LossForgottenAtWrap()
    ensures var s := Heard(0, 0xFFFF_FFFF, 0xFFFF_FFFB, 0, 0);
            && Sound(s) && s.Expected() - s.received == 5
            && InWords(ToU32(s.Expected()), ToU32(s.received), 0, 0, 0).cumulative == 0
  {
    assert ToU32(0x1_0000_0000) == 0;
  }

  lemma LowDifference(x: int, y: int)
    ensures ToU32(x - y) == ToU32(ToU32(x) - ToU32(y))
    ensures 0 <= x - y < 0x1_0000_0000 ==> ToU32(x - y) == x - y
  {
    var k := x / 0x1_0000_0000 - y / 0x1_0000_0000;
    assert x - y == ToU32(x) - ToU32(y) + k * 0x1_0000_0000;
    NtpClock.SameTurn(x - y, ToU32(x) - ToU32(y), k);
  }

  /** The correction for a wrap-around is of 2^16, not 2^32. */
  lemma WrapMoves(e: u32, r: u32)
    requires r <= e
    ensures ToU32(ToU32(e + 0x1_0000 * ToU32(0 + 1)) - r) != e - r
  {
  }

  // ----- Runs -----

  datatype Event = Arrival(e: int) | Report

  function Next(s: Stats, event: Event): Stats {
    match event
    case Arrival(e) => Arrive(s, ToU16(e))
    case Report => if s.Heard? && Sound(s) then Reported(s) else s
  }

  function After(events: seq<Event>): Stats {
    if events == [] then Silent
    else
      Next(After(events[..|events| - 1]), events[|events| - 1])
  }

  /** The figures of all reports made. */
  function Reports(events: seq<Event>): seq<Loss> {
    if events == [] then []
    else
      var before, last := events[..|events| - 1], events[|events| - 1];
      var s := After(before);
      Reports(before) + if last.Report? && s.Heard? && Sound(s) then [Losses(s)] else []
  }

  function SumOfIntervals(reports: seq<Loss>): nat {
    if reports == [] then 0
    else SumOfIntervals(reports[..|reports| - 1]) + reports[|reports| - 1].interval
  }

  /** The packets lost since the last report. */
  function OpenLosses(s: Stats): int
    requires s.Heard?
  {
    s.Expected() - s.reportedExpected - (s.received - s.reportedReceived)
  }

  /** Each arrival exactly half a turn away from a highest number in the upper half of its cycle comes
      when more than 2^15 packets were lost since the last report. */
  predicate StepsCovered(events: seq<Event>) {
    events == [] ||
    var s, last := After(events[..|events| - 1]), events[|events| - 1];
    && StepsCovered(events[..|events| - 1])
    && (last.Arrival? && s.Heard? && StepsBack(s.highest, ToU16(last.e)) ==> OpenLosses(s) > 0x8000)
  }

  ghost predicate SoundThroughout(events: seq<Event>) {
    forall n | 0 <= n <= |events| :: Sound(After(events[..n]))
  }

  /** Every arrival after the first lies less than 2^15 from the highest number so far. */
  predicate Near(events: seq<Event>) {
    events == [] ||
    var s, last := After(events[..|events| - 1]), events[|events| - 1];
    && Near(events[..|events| - 1])
    && (last.Arrival? ==> if s.Heard? then -0x8000 < last.e - s.highest < 0x8000 else 0 <= last.e < 0x1_0000)
  }

  /** The reported numbers of a sound state are sound themselves. */
  predicate Orderly(s: Stats) { s.Heard? ==> s.reportedReceived <= s.reportedExpected }

  /** An arrival keeps the books sound exactly if it does not step back, or more than 2^15 packets were lost
      since the last report. */
  lemma ArrivalKeepsSound(s: Stats, seq_: u16)
    requires s.Heard? && Sound(s) && Orderly(s)
    ensures Sound(Arrive(s, seq_)) <==> (StepsBack(s.highest, seq_) ==> OpenLosses(s) > 0x8000)
    ensures Orderly(Arrive(s, seq_))
  {
    hide Ahead;
  }

  /** In every run, never more packets were received than expected at any time, nor in any interval, exactly
      if every step back is covered by losses. */
  lemma {:induction false} SoundExactlyWhenCovered(events: seq<Event>)
    ensures SoundThroughout(events) <==> StepsCovered(events)
    ensures StepsCovered(events) ==> Orderly(After(events))
  {
    hide Sound, SoundThroughout, StepsBack, OpenLosses, Track, Counts, Orderly;
    if events == [] {
      assert Sound(Silent) && Orderly(Silent) by { SilentIsSound(); }
      NothingHeard();
    } else {
      var before, last := events[..|events| - 1], events[|events| - 1];
      SoundExactlyWhenCovered(before);
      OneEventMore(events);
      if StepsCovered(before) {
        SoundAtEnd(before);
        EventKeepsSound(After(before), last);
      }
    }
  }

  lemma SilentIsSound()
    ensures Sound(Silent) && Orderly(Silent)
  {
  }

  lemma NothingHeard()
    ensures SoundThroughout([])
  {
    assert forall n | 0 <= n <= 0 :: After([][..n]) == Silent;
  }

  lemma SoundAtEnd(events: seq<Event>)
    requires SoundThroughout(events)
    ensures Sound(After(events))
  {
    hide Sound, After;
    assert events[..|events|] == events;
  }

  lemma OneEventMore(events: seq<Event>)
    requires events != []
    ensures SoundThroughout(events) <==> SoundThroughout(events[..|events| - 1]) && Sound(After(events))
  {
    hide Sound, After;
    var before := events[..|events| - 1];
    assert events[..|events|] == events;
    assert forall n | 0 <= n <= |before| :: events[..n] == before[..n];
  }

  lemma EventKeepsSound(s: Stats, event: Event)
    requires Sound(s) && Orderly(s)
    ensures Orderly(Next(s, event))
    ensures Sound(Next(s, event)) <==>
            (event.Arrival? && s.Heard? && StepsBack(s.highest, ToU16(event.e)) ==> OpenLosses(s) > 0x8000)
  {
    hide StepsBack, Track, Counts, ToU16;
    if event.Arrival? && s.Heard? {
      ArrivalKeepsSound(s, ToU16(event.e));
    }
  }

  /**
   In every run whose steps back are covered: never more packets received than expected, and the losses of
   the intervals add up to the loss at the last report.
   */
  lemma {:induction false} LossAccounting(events: seq<Event>)
    requires StepsCovered(events)
    ensures var s, reports := After(events), Reports(events);
            && Sound(s)
            && SumOfIntervals(reports) == (if s.Heard? then s.reportedExpected - s.reportedReceived else 0)
            && (reports != [] ==> reports[|reports| - 1].cumulative == SumOfIntervals(reports))
  {
    hide Losses, StepsBack, Track, Counts, Sound, OpenLosses;
    SoundExactlyWhenCovered(events);
    SoundAtEnd(events);
    if events != [] {
      var before, last := events[..|events| - 1], events[|events| - 1];
      LossAccounting(before);
      var s := After(before);
      if last.Report? && s.Heard? {
        assert Reports(events) == Reports(before) + [Losses(s)];
        assert Reports(events)[..|Reports(events)| - 1] == Reports(before);
        LossOf(s);
      } else {
        assert Reports(events) == Reports(before);
      }
    }
  }

  lemma LossOf(s: Stats)
    requires s.Heard? && Sound(s)
    ensures Losses(s).cumulative == s.Expected() - s.received
    ensures Losses(s).interval == s.Expected() - s.reportedExpected - (s.received - s.reportedReceived)
  {
  }

  function Highest(events: seq<Event>): int {
    if events == [] then -1
    else
      var before, last := Highest(events[..|events| - 1]), events[|events| - 1];
      if last.Arrival? then Max(before, last.e) else before
  }

  lemma FirstIsHighest(e: int)
    requires 0 <= e < 0x1_0000
    ensures Arrive(Silent, ToU16(e)) == Heard(e, e, 1, 0, 0)
  {
  }

  lemma NearStep(s: Stats, e: int)
    requires s.Heard? && -0x8000 < e - s.highest < 0x8000
    ensures !StepsBack(s.highest, ToU16(e))
    ensures Arrive(s, ToU16(e)).Heard? && Arrive(s, ToU16(e)).highest == Max(s.highest, e)
  {
    hide Track, ToU16;
    TrackIsMaximum(s.highest, e);
    AheadOfTrue(s.highest, e);
  }

  /** With arrivals near the highest number, that number is the maximum of all that arrived. */
  lemma {:induction false} HighestIsMaximum(events: seq<Event>)
    requires Near(events)
    ensures StepsCovered(events)
    ensures var s := After(events); if s.Heard? then s.highest == Highest(events) else Highest(events) == -1
  {
    hide Arrive, StepsBack, Sound;
    if events != [] {
      var before, last := events[..|events| - 1], events[|events| - 1];
      HighestIsMaximum(before);
      var s := After(before);
      if last.Arrival? {
        if s.Heard? {
          NearStep(s, last.e);
        } else {
          FirstIsHighest(last.e);
        }
      }
    }
  }

  /** A step back breaks the accounting: two packets received, fewer than none expected. */
  lemma StepBackBreaksAccounting()
    ensures var s := After([Arrival(40000), Arrival(40000 - 0x8000)]);
            s.Heard? && s.received == 2 && s.Expected() < 0
  {
    var one := [Arrival(40000)];
    var two := [Arrival(40000), Arrival(40000 - 0x8000)];
    assert two[..1] == one && one[..0] == [];
    assert After(one) == Heard(40000, 40000, 1, 0, 0);
  }
}
