/**
 Reading a compound RTCP packet section by section (rtpsession.cpp; sections 6.1 and A.2 of
 RFC 3550), and what a receiver hears of a report the builder made.
 */
module RtcpCompound {
  import opened Outcomes
  import opened Machine
  import opened Octets
  import opened RtcpLayout
  import opened RtpPackets
  import opened Reception
  import opened TranStream
  import RtcpReport

  datatype Stream = Receiving | Transmitting | Unknown

  /** The SSRCs a session knows, and what its BYE and APP code finds in a stream type that was never
      set because no stream matched. */
  datatype Known = Known(rx: set<u32>, tx: set<u32>, leftover: Stream)

  /** MatchSSRCToStream: receiving streams first. */
  function Match(k: Known, ssrc: u32): Stream {
    if ssrc in k.rx then Receiving else if ssrc in k.tx then Transmitting else Unknown
  }

  /** What is parsed and handed on, to the stream or session it is about.  The observer in turn is told of it:
      the SSRC and time stamps of an SR, and an SDES only as far as it brings something new. */
  datatype Heard =
    | SrHeard(sr: SenderReport) | RrHeard(rr: ReportBlock) | EmptyRr
    | SdesHeard(sdes: Sdes) | ByeHeard(bye: Bye) | AppHeard(app: App)

  /** The octets of application data TRtcpApp holds. */
  const KMaxRtcpAppData := RtcpReport.KMaxRtcpAppData

  /** NO_ERROR, MORE, ERROR, FOUND_RXSTREAM; Outside for reading behind the buffer's end, and for writing
      behind that of the application data. */
  datatype Code = AllDone | GoOn | Refused | Found | Outside

  function CodeAt(at: nat, size: int): Code { if at == size then AllDone else if at < size then GoOn else Refused }

  /** The outcome of one section: where the cursor is left, and what was handed on. */
  datatype Outcome = Outcome(code: Code, at: nat, heard: seq<Heard>)

  /** Something handed on before the rest. */
  function Before(first: seq<Heard>, o: Outcome): Outcome { o.(heard := first + o.heard) }

  function Failure(e: Error, at: nat): Outcome { Outcome(if e == Panic then Outside else Refused, at, []) }

  /** ProcessRRSectionL: n blocks, each about one of the session's own streams. */
  function RrBlocks(b: Bytes, at: nat, size: int, n: nat, k: Known): (o: Outcome)
    requires n > 0
    ensures o.code == GoOn ==> at + 24 * n == o.at < size
    ensures o.code != Found
    decreases n
  {
    if at + 4 > |b| then Outcome(Outside, at, [])
    else
      var stream := Match(k, Read32(b, at));
      if stream == Unknown then Outcome(Refused, at, [])
      else
        match ReadRr(b, at)
        case Leave(e) => Failure(e, at)
        case Ok(Read(block, next)) =>
          var code := CodeAt(next, size);
          if code == Refused || stream == Receiving then Outcome(Refused, next, [])
          else if code == AllDone || n == 1 then Outcome(code, next, [RrHeard(block)])
          else
            var rest := RrBlocks(b, next, size, n - 1, k);
            rest.(heard := [RrHeard(block)] + rest.heard)
  }

  function SrSection(b: Bytes, at: nat, size: int, n: nat, k: Known): (o: Outcome)
    ensures o.code == GoOn ==> at + 24 <= o.at < size
    ensures o.code != Found
  {
    if at + 4 > |b| then Outcome(Outside, at, [])
    else
      var stream := Match(k, Read32(b, at));
      if stream == Unknown then Outcome(Refused, at, [])
      else
        match ReadSr(b, at)
        case Leave(e) => Failure(e, at)
        case Ok(Read(sr, next)) =>
          var code := CodeAt(next, size);
          var heard := if code == Refused || stream != Receiving then [] else [SrHeard(sr)];
          if code != GoOn || n == 0 then Outcome(code, next, heard)
          else
            var rest := RrBlocks(b, next, size, n, k);
            rest.(heard := heard + rest.heard)
  }

  function SdesSection(b: Bytes, at: nat, size: int, k: Known): (o: Outcome)
    ensures o.code == GoOn ==> at + 4 <= o.at < size
    ensures o.code != Found
  {
    match ReadSdes(b, at)
    case Leave(e) => Failure(e, at)
    case Ok(Read(sdes, next)) =>
      var code, stream := CodeAt(next, size), Match(k, sdes.ssrc);
      if code == Refused then Outcome(Refused, next, [])
      else if stream == Receiving || (stream == Unknown && k.tx != {} && k.rx == {}) then Outcome(code, next, [SdesHeard(sdes)])
      else Outcome(Refused, next, [])
  }

  /** BYE and APP: known receiving streams end the reading. */
  function ForStream(code: Code, at: nat, stream: Stream, leftover: Stream, heard: Heard): Outcome {
    if code == Refused then Outcome(Refused, at, [])
    else if stream == Receiving then Outcome(Found, at, [heard])
    else if stream == Unknown && leftover == Receiving then Outcome(code, at, [])
    else Outcome(Refused, at, [])
  }

  /** ProcessOneRTCPReportSectionL */
  function Section(b: Bytes, at: nat, size: int, h: Header, k: Known): (o: Outcome)
    requires at < size
    ensures o.code == GoOn ==> at <= o.at < size
  {
    if h.pt == ERTCP_SR then SrSection(b, at, size, h.sourceCount, k)
    else if h.pt == ERTCP_RR then
      if h.sourceCount == 0 then Outcome(GoOn, at, [EmptyRr]) else RrBlocks(b, at, size, h.sourceCount, k)
    else if h.pt == ERTCP_SDES then SdesSection(b, at, size, k)
    else if h.pt == ERTCP_BYE then
      match ReadBye(b, at)
      case Leave(e) => Failure(e, at)
      case Ok(Read(bye, next)) => ForStream(CodeAt(next, size), next, Match(k, bye.ssrc), k.leftover, ByeHeard(bye))
    else
      match ReadApp(b, at, h.length % 0x1_0000)
      case Leave(e) => Failure(e, at)
      case Ok(Read(app, next)) =>
        if CodeAt(next, size) != Refused && Match(k, app.ssrc) == Receiving && |app.data| > KMaxRtcpAppData then
          Outcome(Outside, next, [])
        else ForStream(CodeAt(next, size), next, Match(k, app.ssrc), k.leftover, AppHeard(app))
  }

  /** The end of a compound packet: headers lists the section headers that were read, size the packet's
      size as it was last, and lastAt where the last header was looked for. */
  datatype Verdict = Verdict(code: Code, heard: seq<Heard>, headers: seq<Header>, size: int, lastAt: nat)

  /**
   ProcessRTCPReportL from some section on; sum is what the length fields before it add up to.  It
   ends for every buffer: each section that goes on leaves the cursor at least four octets further
   and inside the packet.
   */
  function Walk(b: Bytes, at: nat, size: nat, first: bool, sum: nat, k: Known): Verdict
    requires at <= size <= |b|
    decreases size - at
  {
    match ReadHeader(b, at, size)
    case Leave(e) => Verdict(if e == Panic then Outside else Refused, [], [], size, at)
    case Ok(Read(h, next)) =>
      var size' := SizeAfterHeader(b, at, size);
      if next >= size' then Verdict(CodeAt(next, size'), [], [h], size', at)
      else if first && h.pt != ERTCP_SR && h.pt != ERTCP_RR then Verdict(Refused, [], [h], size', at)
      else
        var o := Section(b, next, size', h, k);
        var sum' := sum + (h.length + 1) * 4;
        if o.code == Found || o.code == Outside then Verdict(o.code, o.heard, [h], size', at)
        else if o.code != GoOn then Verdict(if sum' != size' then Refused else o.code, o.heard, [h], size', at)
        else
          var rest := Walk(b, o.at, size', false, sum', k);
          rest.(heard := o.heard + rest.heard, headers := [h] + rest.headers)
  }

  /** One turn of the loop over the sections. */
  lemma WalkOneSection(b: Bytes, at: nat, size: nat, first: bool, sum: nat, k: Known)
    requires at <= size <= |b|
    ensures var v := Walk(b, at, size, first, sum, k);
            match ReadHeader(b, at, size)
            case Leave(e) => v.code == (if e == Panic then Outside else Refused) && v.heard == []
            case Ok(Read(h, next)) =>
              var size' := SizeAfterHeader(b, at, size);
              if next >= size' then
                v.code == CodeAt(next, size') && v.heard == [] && v.headers == [h] && v.size == size' && v.lastAt == at
              else if first && h.pt != ERTCP_SR && h.pt != ERTCP_RR then v.code == Refused && v.heard == []
              else
                var o, sum' := Section(b, next, size', h, k), sum + (h.length + 1) * 4;
                if o.code == Found || o.code == Outside then
                  v.code == o.code && v.heard == o.heard && v.headers == [h] && v.size == size' && v.lastAt == at
                else if o.code != GoOn then
                  && v.code == (if sum' != size' then Refused else o.code) && v.heard == o.heard
                  && v.headers == [h] && v.size == size' && v.lastAt == at
                else
                  && size' <= size
                  && var rest := Walk(b, o.at, size', false, sum', k);
                     && v.code == rest.code && v.heard == o.heard + rest.heard
                     && v.headers == [h] + rest.headers && v.size == rest.size && v.lastAt == rest.lastAt
  {
    hide Section;
  }

  /** A compound packet begins with an SR or an RR: one of another type is refused before any of its sections is
      read, unless it is no more than its header. */
  lemma BeginsWithReport(b: Bytes, size: nat, k: Known)
    requires size <= |b| && |b| >= 2 && b[1] != 200 && b[1] != 201
    ensures var v := Walk(b, 0, size, true, 0, k);
            && v.heard == [] && (Accepted(v) ==> v.code == AllDone && v.size == 4 && v.lastAt == 0)
  {
    hide Section;
    HeaderAcceptedExactly(b, 0, size);
  }

  /** The padding bit in the first section is meant to be refused, but the field the code looks at is never set from
      an RTCP header: an RR that claims four octets of padding is accepted. */
  lemma PaddedFirstSectionAccepted(k: Known)
    ensures var b: Bytes := [0xA0, 201, 0, 1, 0, 0, 0, 7, 0, 0, 0, 4];
            Walk(b, 0, 12, true, 0, k).code == AllDone && Walk(b, 0, 12, true, 0, k).size == 8
  {
    hide Section;
    var b: Bytes := [0xA0, 201, 0, 1, 0, 0, 0, 7, 0, 0, 0, 4];
    assert Read16(b, 2) == 1 && SizeAfterHeader(b, 0, 12) == 8;
  }

  function SumOfLengths(headers: seq<Header>): nat {
    if headers == [] then 0 else (headers[0].length + 1) * 4 + SumOfLengths(headers[1..])
  }

  /** The two codes the caller takes for success. */
  predicate Accepted(v: Verdict) { v.code == AllDone || v.code == Found }

  /** The section whose header is at a position is a BYE or APP of a known receiving stream. */
  predicate ForReceiving(b: Bytes, at: nat, k: Known)
    requires at + 4 <= |b|
  {
    (b[at + 1] == ERTCP_BYE || b[at + 1] == ERTCP_APP) && at + 8 <= |b| && Match(k, Read32(b, at + 4)) == Receiving
  }

  /** Octets follow the last header, and it is not that of a BYE or APP of a known receiving stream. */
  predicate Compared(b: Bytes, lastAt: nat, size: int, k: Known)
    requires lastAt + 4 <= |b|
  {
    lastAt + (if b[lastAt + 1] == ERTCP_RR then 8 else 4) != size && !ForReceiving(b, lastAt, k)
  }

  /**
   When the length fields count.  An accepted packet's length fields add up to its size if octets follow
   its last header and this is not the header of a BYE or APP of a known receiving stream; otherwise they
   are not looked at: whatever other number they had added up to before, the packet would be accepted
   just the same.
   */
  lemma {:induction false} AcceptedLengthsAddUp(b: Bytes, at: nat, size: nat, first: bool, sum: nat, other: nat, k: Known)
    requires at <= size <= |b|
    ensures var v := Walk(b, at, size, first, sum, k);
            Accepted(v) ==>
              && v.lastAt + 4 <= |b|
              && (Compared(b, v.lastAt, v.size, k) ==> sum + SumOfLengths(v.headers) == v.size)
              && (Walk(b, at, size, first, other, k).code == v.code <==> other == sum || !Compared(b, v.lastAt, v.size, k))
    decreases size - at
  {
    hide Section, ReadHeader, SizeAfterHeader, Walk, Compared, SumOfLengths;
    if EndsHere(b, at, size, first, k) {
      LastSectionLengths(b, at, size, first, sum, other, k);
    } else {
      WalkOneSection(b, at, size, first, sum, k);
      WalkOneSection(b, at, size, first, other, k);
      HeaderBounds(b, at, size);
      var Read(h, next) := ReadHeader(b, at, size).value;
      var o := Section(b, next, SizeAfterHeader(b, at, size), h, k);
      var sum', other' := sum + (h.length + 1) * 4, other + (h.length + 1) * 4;
      var rest := Walk(b, o.at, SizeAfterHeader(b, at, size), false, sum', k);
      AcceptedLengthsAddUp(b, o.at, SizeAfterHeader(b, at, size), false, sum', other', k);
      LengthsOf(h, rest.headers);
    }
  }

  /** The section is the last that is read. */
  predicate EndsHere(b: Bytes, at: nat, size: nat, first: bool, k: Known)
    requires at <= size <= |b|
  {
    match ReadHeader(b, at, size)
    case Leave(_) => true
    case Ok(Read(h, next)) =>
      var size' := SizeAfterHeader(b, at, size);
      || next >= size' || (first && h.pt != ERTCP_SR && h.pt != ERTCP_RR)
      || Section(b, next, size', h, k).code != GoOn
  }

  lemma LastSectionLengths(b: Bytes, at: nat, size: nat, first: bool, sum: nat, other: nat, k: Known)
    requires at <= size <= |b| && EndsHere(b, at, size, first, k)
    ensures var v := Walk(b, at, size, first, sum, k);
            Accepted(v) ==>
              && v.lastAt + 4 <= |b|
              && (Compared(b, v.lastAt, v.size, k) ==> sum + SumOfLengths(v.headers) == v.size)
              && (Walk(b, at, size, first, other, k).code == v.code <==> other == sum || !Compared(b, v.lastAt, v.size, k))
  {
    hide Section, ReadHeader, SizeAfterHeader, Walk, ForReceiving;
    WalkOneSection(b, at, size, first, sum, k);
    WalkOneSection(b, at, size, first, other, k);
    if ReadHeader(b, at, size).Ok? {
      var Read(h, next) := ReadHeader(b, at, size).value;
      HeaderBounds(b, at, size);
      assert SumOfLengths([h]) == (h.length + 1) * 4;
      if next < SizeAfterHeader(b, at, size) {
        SectionAccepts(b, at, SizeAfterHeader(b, at, size), h, k);
      }
    }
  }

  lemma LengthsOf(h: Header, rest: seq<Header>)
    ensures SumOfLengths([h] + rest) == (h.length + 1) * 4 + SumOfLengths(rest)
  {
    assert ([h] + rest)[1..] == rest;
  }

  lemma NoLengths()
    ensures SumOfLengths([]) == 0
  {
  }

  /** Which sections end the reading with success, and how. */
  lemma SectionAccepts(b: Bytes, at: nat, size: nat, h: Header, k: Known)
    requires at + 4 <= |b| && h.pt == b[at + 1] && ERTCP_SR <= h.pt <= ERTCP_APP
    requires at + (if h.pt == ERTCP_RR then 8 else 4) < size
    ensures var o := Section(b, at + (if h.pt == ERTCP_RR then 8 else 4), size, h, k);
            && (o.code == Found ==> ForReceiving(b, at, k))
            && (o.code == AllDone || o.code == GoOn ==> !ForReceiving(b, at, k))
  {
    hide SrSection, RrBlocks, SdesSection, Read32, Match;
  }

  lemma HeaderBounds(b: Bytes, at: nat, size: nat)
    requires at <= size <= |b| && ReadHeader(b, at, size).Ok?
    ensures var r := ReadHeader(b, at, size).value;
            && at + 4 <= |b| && r.value.pt == b[at + 1] && ERTCP_SR <= r.value.pt <= ERTCP_APP
            && r.at == at + if r.value.pt == ERTCP_RR then 8 else 4
    ensures SizeAfterHeader(b, at, size) <= size
  {
  }

  /** A lone header passes without any check of its length field. */
  lemma BareHeaderAccepted(k: Known)
    ensures var b: Bytes := [0x80, ERTCP_RR, 0, 0, 0, 0, 0, 1];
            var v := Walk(b, 0, 8, true, 0, k);
            v.code == AllDone && v.lastAt == 0 && !Compared(b, v.lastAt, v.size, k) && SumOfLengths(v.headers) != 8
  {
    var b: Bytes := [0x80, ERTCP_RR, 0, 0, 0, 0, 0, 1];
    assert ReadHeader(b, 0, 8) == Ok(Read(Header(0, ERTCP_RR, 0, 1), 8));
    assert SumOfLengths([Header(0, ERTCP_RR, 0, 1)]) == 4;
  }

  /** A BYE of a known receiving stream passes although the lengths do not add up, and is handed on. */
  lemma ByeAcceptedUnchecked(k: Known)
    requires 7 in k.rx
    ensures var b: Bytes := [0x80, ERTCP_RR, 0, 1, 0, 0, 0, 7, 0x81, ERTCP_BYE, 0, 0, 0, 0, 0, 7, 0, 0, 0, 0];
            var v := Walk(b, 0, 20, true, 0, k);
            && v.code == Found && v.heard == [EmptyRr, ByeHeard(Bye(7, []))]
            && v.size == 20 && SumOfLengths(v.headers) == 12
  {
    hide Walk, Section, ReadHeader, SizeAfterHeader, SumOfLengths;
    var b: Bytes := [0x80, ERTCP_RR, 0, 1, 0, 0, 0, 7, 0x81, ERTCP_BYE, 0, 0, 0, 0, 0, 7, 0, 0, 0, 0];
    var rr, bye := Header(0, ERTCP_RR, 1, 7), Header(1, ERTCP_BYE, 0, 0);
    TwoSections(b, k);
    WalkOneSection(b, 0, 20, true, 0, k);
    WalkOneSection(b, 8, 20, false, 8, k);
    LengthsOf(rr, [bye]);
    NoLengths();
    LengthsOf(bye, []);
    assert [rr] + [bye] == [rr, bye] && [bye] + [] == [bye];
  }

  lemma TwoSections(b: Bytes, k: Known)
    requires b == [0x80, ERTCP_RR, 0, 1, 0, 0, 0, 7, 0x81, ERTCP_BYE, 0, 0, 0, 0, 0, 7, 0, 0, 0, 0] && 7 in k.rx
    ensures ReadHeader(b, 0, 20) == Ok(Read(Header(0, ERTCP_RR, 1, 7), 8)) && SizeAfterHeader(b, 0, 20) == 20
    ensures Section(b, 8, 20, Header(0, ERTCP_RR, 1, 7), k) == Outcome(GoOn, 8, [EmptyRr])
    ensures ReadHeader(b, 8, 20) == Ok(Read(Header(1, ERTCP_BYE, 0, 0), 12)) && SizeAfterHeader(b, 8, 20) == 20
    ensures Section(b, 12, 20, Header(1, ERTCP_BYE, 0, 0), k) == Outcome(Found, 20, [ByeHeard(Bye(7, []))])
  {
    assert b[17..17] == [] && ReadBye(b, 12) == Ok(Read(Bye(7, []), 20));
  }

  // ----- A built report is heard -----

  /** A report block as it comes over the wire: 24 bits of its loss count. */
  function Sent(block: ReportBlock): ReportBlock {
    block.(cumNumPacketsLost := block.cumNumPacketsLost % 0x100_0000)
  }

  function BlocksHeard(blocks: seq<ReportBlock>): (r: seq<Heard>)
    ensures |r| == |blocks|
  {
    if blocks == [] then [] else [RrHeard(Sent(blocks[0]))] + BlocksHeard(blocks[1..])
  }

  /** Every block is about a stream the receiver of the report sends. */
  predicate AllOwn(blocks: seq<ReportBlock>, k: Known) {
    forall i | 0 <= i < |blocks| :: Match(k, blocks[i].ssrc) == Transmitting
  }

  lemma {:induction false} BlocksInFront(blocks: seq<ReportBlock>)
    requires blocks != []
    ensures RtcpReport.WriteBlocks(blocks) == WriteRr(blocks[0]) + RtcpReport.WriteBlocks(blocks[1..])
  {
    hide WriteRr;
    var most, last := blocks[..|blocks| - 1], blocks[|blocks| - 1];
    if |blocks| == 1 {
      assert most == [] && blocks[1..] == [];
    } else {
      BlocksInFront(most);
      assert most[1..] == blocks[1..][..|blocks| - 2];
    }
  }

  lemma SsrcOfBlock(b: Bytes, at: nat, block: ReportBlock, next: nat)
    requires ReadRr(b, at) == Ok(Read(block, next))
    ensures at + 4 <= |b| && Read32(b, at) == block.ssrc && next == at + 24
  {
    hide Read32, Read24;
  }

  lemma SsrcOfSr(b: Bytes, at: nat, sr: SenderReport, next: nat)
    requires ReadSr(b, at) == Ok(Read(sr, next))
    ensures at + 4 <= |b| && Read32(b, at) == sr.ssrc && next == at + 24
  {
    hide Read32;
  }

  /** The blocks written are heard one by one, up to the first that is not about an own stream. */
  lemma {:induction false} BlocksRead(before: Bytes, blocks: seq<ReportBlock>, after: Bytes, size: int, k: Known)
    requires blocks != [] && |before| + 24 * |blocks| < size
    ensures var o := RrBlocks(before + RtcpReport.WriteBlocks(blocks) + after, |before|, size, |blocks|, k);
            if AllOwn(blocks, k) then o == Outcome(GoOn, |before| + 24 * |blocks|, BlocksHeard(blocks)) else o.code == Refused
    decreases |blocks|
  {
    hide ReadRr, WriteRr, Read32, RtcpReport.WriteBlocks;
    var block, rest := blocks[0], RtcpReport.WriteBlocks(blocks[1..]);
    var b := before + RtcpReport.WriteBlocks(blocks) + after;
    BlocksInFront(blocks);
    assert b == before + WriteRr(block) + (rest + after);
    RrRoundTrip(before, block, rest + after);
    SsrcOfBlock(b, |before|, Sent(block), |before| + 24);
    if |blocks| > 1 {
      assert b == (before + WriteRr(block)) + rest + after;
      BlocksRead(before + WriteRr(block), blocks[1..], after, size, k);
      assert AllOwn(blocks, k) <==> Match(k, block.ssrc) == Transmitting && AllOwn(blocks[1..], k);
    } else {
      assert blocks[1..] == [];
    }
  }

  /** What is handed on of the first section of a report. */
  function ReportHeard(tx: Option<RtcpReport.Tx>, blocks: seq<ReportBlock>): seq<Heard> {
    if RtcpReport.SendsSr(tx) then [SrHeard(tx.value.report)] + BlocksHeard(blocks)
    else if blocks == [] then [EmptyRr]
    else BlocksHeard(blocks)
  }

  lemma Regrouped(a: Bytes, b: Bytes, c: Bytes, d: Bytes)
    ensures a + (b + c) + d == a + b + (c + d) == (a + b) + c + d
  {
  }

  lemma SrThenBlocks(b: Bytes, at: nat, size: int, n: nat, sr: SenderReport, k: Known)
    requires ReadSr(b, at) == Ok(Read(sr, at + 24)) && at + 24 < size
    ensures SrSection(b, at, size, n, k) ==
            if Match(k, sr.ssrc) == Unknown then Outcome(Refused, at, [])
            else
              var heard := if Match(k, sr.ssrc) == Receiving then [SrHeard(sr)] else [];
              if n == 0 then Outcome(GoOn, at + 24, heard) else Before(heard, RrBlocks(b, at + 24, size, n, k))
  {
    SsrcOfSr(b, at, sr, at + 24);
    hide ReadSr, Read32, RrBlocks, Match;
  }

  lemma SrReadsFirst(sr: SenderReport, octets: Bytes, before: Bytes, after: Bytes)
    ensures var b := before + (WriteSr(sr) + octets) + after;
            && ReadSr(b, |before|) == Ok(Read(sr, |before| + 24))
            && b == (before + WriteSr(sr)) + octets + after
  {
    hide ReadSr, WriteSr;
    Regrouped(before, WriteSr(sr), octets, after);
    SrRoundTrip(before, sr, octets + after);
  }

  /** An SR, and then the blocks, at a position of a buffer. */
  lemma SrHeardAt(b: Bytes, at: nat, sr: SenderReport, blocks: seq<ReportBlock>, front: Bytes, after: Bytes, size: int, k: Known)
    requires ReadSr(b, at) == Ok(Read(sr, at + 24)) && |front| == at + 24
    requires b == front + RtcpReport.WriteBlocks(blocks) + after && at + 24 + 24 * |blocks| < size
    ensures var o := SrSection(b, at, size, |blocks|, k);
            if Match(k, sr.ssrc) != Unknown && AllOwn(blocks, k) then
              && o.code == GoOn && o.at == at + 24 + 24 * |blocks|
              && (Match(k, sr.ssrc) == Receiving ==> o.heard == [SrHeard(sr)] + BlocksHeard(blocks))
            else o.code == Refused
  {
    assert blocks == [] ==> AllOwn(blocks, k) && BlocksHeard(blocks) == [];
    hide ReadSr, RtcpReport.WriteBlocks, RrBlocks, SrSection, Match, AllOwn, BlocksHeard;
    SrThenBlocks(b, at, size, |blocks|, sr, k);
    if blocks != [] {
      BlocksRead(front, blocks, after, size, k);
    }
  }

  lemma SrHeardFirst(sr: SenderReport, blocks: seq<ReportBlock>, before: Bytes, after: Bytes, size: int, k: Known)
    requires |before| + 24 + 24 * |blocks| < size
    ensures var b := before + (WriteSr(sr) + RtcpReport.WriteBlocks(blocks)) + after;
            var o := SrSection(b, |before|, size, |blocks|, k);
            if Match(k, sr.ssrc) != Unknown && AllOwn(blocks, k) then
              && o.code == GoOn && o.at == |before| + 24 + 24 * |blocks|
              && (Match(k, sr.ssrc) == Receiving ==> o.heard == [SrHeard(sr)] + BlocksHeard(blocks))
            else o.code == Refused
  {
    hide ReadSr, WriteSr, RtcpReport.WriteBlocks, SrSection, Match, AllOwn, BlocksHeard;
    var octets := RtcpReport.WriteBlocks(blocks);
    SrReadsFirst(sr, octets, before, after);
    SrHeardAt(before + (WriteSr(sr) + octets) + after, |before|, sr, blocks, before + WriteSr(sr), after, size, k);
  }

  /** The first section of a report, behind its header. */
  lemma ReportSectionHeard(tx: Option<RtcpReport.Tx>, rx: seq<RtcpReport.Rx>, default_: u32, after: Bytes, size: int, k: Known)
    requires |RtcpReport.ReportSection(tx, rx, default_)| < size
    ensures var section, blocks := RtcpReport.ReportSection(tx, rx, default_), RtcpReport.Blocks(rx);
            var h := RtcpReport.ReportHeader(tx, rx, default_);
            var o := Section(section + after, |WriteHeader(h)|, size, h, k);
            if (RtcpReport.SendsSr(tx) ==> Match(k, tx.value.report.ssrc) != Unknown) && AllOwn(blocks, k) then
              && o.code == GoOn && o.at == |section|
              && ((RtcpReport.SendsSr(tx) ==> Match(k, tx.value.report.ssrc) == Receiving) ==>
                    o.heard == ReportHeard(tx, blocks))
            else o.code == Refused
  {
    hide WriteHeader, WriteSr, RtcpReport.WriteBlocks, RtcpReport.Blocks, RrBlocks, SrSection, SdesSection, Match;
    var h, blocks := RtcpReport.ReportHeader(tx, rx, default_), RtcpReport.Blocks(rx);
    var header, octets := WriteHeader(h), RtcpReport.WriteBlocks(blocks);
    if RtcpReport.Empty(tx, rx) {
      RtcpReport.NoBlocks(rx);
    }
    var b := RtcpReport.ReportSection(tx, rx, default_) + after;
    if RtcpReport.SendsSr(tx) {
      assert b == header + (WriteSr(tx.value.report) + octets) + after;
      SrHeardFirst(tx.value.report, blocks, header, after, size, k);
    } else {
      assert header + [] == header;
      if blocks != [] {
        assert b == header + octets + after;
        BlocksRead(header, blocks, after, size, k);
      }
    }
  }

  /** An SDES is heard for a known receiving stream, and from anyone while the session only sends. */
  predicate HeedsSdes(k: Known, ssrc: u32) {
    Match(k, ssrc) == Receiving || (Match(k, ssrc) == Unknown && k.tx != {} && k.rx == {})
  }

  lemma SdesSectionHeard(before: Bytes, items: Items, ssrc: u32, after: Bytes, size: nat, k: Known)
    requires Short(items) && |before| + |RtcpReport.SdesSection(items, ssrc)| <= size
    ensures var section := RtcpReport.SdesSection(items, ssrc);
            var end := |before| + |section|;
            var o := SdesSection(before + section + after, |before| + 4, size, k);
            if HeedsSdes(k, ssrc) then o == Outcome(CodeAt(end, size), end, [SdesHeard(Sdes(ssrc, items))])
            else o.code == Refused
  {
    hide ReadSdes, WriteSdes, WriteHeader, Count, Total, Match, Gap;
    var header, padding := WriteHeader(RtcpReport.SdesHeader(items)), Gap(RtcpReport.SdesOctets(items));
    var b := before + RtcpReport.SdesSection(items, ssrc) + after;
    assert b == (before + header) + WriteSdes(Sdes(ssrc, items), padding) + after;
    SdesRoundTrip(before + header, Sdes(ssrc, items), padding, after);
  }

  /** The receiver knows the sender, or hears its first SDES while it only sends itself, and every block
      is about a stream of its own. */
  predicate Heeds(k: Known, tx: Option<RtcpReport.Tx>, rx: seq<RtcpReport.Rx>, default_: u32) {
    && AllOwn(RtcpReport.Blocks(rx), k)
    && match Match(k, RtcpReport.Ssrc(tx, default_))
       case Receiving => true
       case Transmitting => false
       case Unknown => !RtcpReport.SendsSr(tx) && k.tx != {} && k.rx == {}
  }

  /** The receiver heeds a report exactly if it heeds its first section, and then its SDES. */
  predicate HeedsFirst(k: Known, tx: Option<RtcpReport.Tx>, rx: seq<RtcpReport.Rx>) {
    (RtcpReport.SendsSr(tx) ==> Match(k, tx.value.report.ssrc) != Unknown) && AllOwn(RtcpReport.Blocks(rx), k)
  }

  lemma HeedsInTurn(k: Known, tx: Option<RtcpReport.Tx>, rx: seq<RtcpReport.Rx>, default_: u32)
    ensures Heeds(k, tx, rx, default_) <==> HeedsFirst(k, tx, rx) && HeedsSdes(k, RtcpReport.Ssrc(tx, default_))
    ensures Heeds(k, tx, rx, default_) ==> RtcpReport.SendsSr(tx) ==> Match(k, tx.value.report.ssrc) == Receiving
  {
    hide AllOwn, RtcpReport.Blocks;
  }

  /** The SDES of a report, from its header on; another section may follow. */
  lemma SdesWalk(before: Bytes, items: Items, ssrc: u32, after: Bytes, size: nat, k: Known)
    requires Short(items) && before != [] && |RtcpReport.SdesSection(items, ssrc)| < 0x1_0000
    requires |before| + |RtcpReport.SdesSection(items, ssrc)| <= size <= |before + RtcpReport.SdesSection(items, ssrc) + after|
    ensures var section := RtcpReport.SdesSection(items, ssrc);
            var b, end := before + section + after, |before| + |section|;
            var v := Walk(b, |before|, size, false, |before|, k);
            if !HeedsSdes(k, ssrc) then v.code == Refused
            else if end == size then
              v.code == AllDone && v.heard == [SdesHeard(Sdes(ssrc, items))] && v.lastAt == |before|
            else
              var w := Walk(b, end, size, false, end, k);
              v.code == w.code && v.heard == [SdesHeard(Sdes(ssrc, items))] + w.heard && v.lastAt == w.lastAt
  {
    hide Walk, ReadHeader, SizeAfterHeader, RtcpReport.SdesSection, SdesSection, HeedsSdes;
    var b := before + RtcpReport.SdesSection(items, ssrc) + after;
    SdesHeaderReads(before, items, ssrc, after, size);
    SdesSectionHeard(before, items, ssrc, after, size, k);
    WalkOneSection(b, |before|, size, false, |before|, k);
  }

  lemma SdesBehindHeader(items: Items, ssrc: u32)
    requires Short(items)
    ensures var section, h := RtcpReport.SdesSection(items, ssrc), RtcpReport.SdesHeader(items);
            |section| >= 4 && section == WriteHeader(h) + section[4..] && h.sourceCount == 1 && h.pt == ERTCP_SDES
  {
    hide WriteSdes, Count, Total, Gap;
  }

  /** The header of a section that is not an RR, inside a packet. */
  lemma HeaderOfSection(before: Bytes, h: Header, octets: Bytes, after: Bytes, size: nat)
    requires h.sourceCount < 32 && ERTCP_SR <= h.pt <= ERTCP_APP && h.pt != ERTCP_RR && h.length < 0x1_0000 && h.ssrc == 0
    requires before != [] && 0 < size && h.length * 4 <= size <= |before + (WriteHeader(h) + octets) + after|
    ensures var b := before + (WriteHeader(h) + octets) + after;
            && SizeAfterHeader(b, |before|, size) == size
            && ReadHeader(b, |before|, size) == Ok(Read(h, |before| + 4))
  {
    hide ReadHeader, SizeAfterHeader, WriteHeader;
    assert before + (WriteHeader(h) + octets) + after == before + WriteHeader(h) + (octets + after);
    HeaderReads(before, h, octets + after, size);
  }

  lemma SdesHeaderReads(before: Bytes, items: Items, ssrc: u32, after: Bytes, size: nat)
    requires Short(items) && before != [] && |RtcpReport.SdesSection(items, ssrc)| < 0x1_0000
    requires |before| + |RtcpReport.SdesSection(items, ssrc)| <= size <= |before + RtcpReport.SdesSection(items, ssrc) + after|
    ensures var section, h := RtcpReport.SdesSection(items, ssrc), RtcpReport.SdesHeader(items);
            var b := before + section + after;
            && SizeAfterHeader(b, |before|, size) == size
            && ReadHeader(b, |before|, size) == Ok(Read(h, |before| + 4))
            && |section| == (h.length + 1) * 4 && |section| > 8
  {
    hide ReadHeader, SizeAfterHeader, WriteSdes, WriteHeader, Count, Total, Gap;
    var section := RtcpReport.SdesSection(items, ssrc);
    RtcpReport.SdesSectionAgrees(items, ssrc);
    SdesIsSmall(items, ssrc);
    HeaderOfSection(before, RtcpReport.SdesHeader(items), section[4..], after, size) by {
      SdesBehindHeader(items, ssrc);
    }
    SdesBehindHeader(items, ssrc);
  }

  /**
   Sender and receiver of a report together.  With at most 31 report blocks, the packet the builder
   makes, in whatever larger buffer it arrives, is accepted exactly if the receiver heeds it, and then
   the sender's report, every block and the SDES items are parsed and handed on just as they were put
   in, in that order.
   */
  lemma ReportIsHeard(
      tx: Option<RtcpReport.Tx>, rx: seq<RtcpReport.Rx>, default_: u32, items: Items, cnameOnly: bool, rest: Bytes, k: Known)
    requires |RtcpReport.Blocks(rx)| < 32 && Short(items)
    ensures var report := RtcpReport.Compound(tx, rx, default_, items, cnameOnly);
            var v := Walk(report + rest, 0, |report|, true, 0, k);
            && (v.code == AllDone <==> Heeds(k, tx, rx, default_))
            && (v.code == AllDone ==>
                  && v.lastAt == |RtcpReport.ReportSection(tx, rx, default_)|
                  && v.heard == ReportHeard(tx, RtcpReport.Blocks(rx))
                     + [SdesHeard(Sdes(RtcpReport.Ssrc(tx, default_), RtcpReport.Chosen(items, cnameOnly)))])
  {
    hide Walk, RtcpReport.ReportSection, RtcpReport.SdesSection, Heeds, HeedsFirst, HeedsSdes, RtcpReport.Blocks, ReportHeard;
    var ssrc, chosen := RtcpReport.Ssrc(tx, default_), RtcpReport.Chosen(items, cnameOnly);
    var section, sdes := RtcpReport.ReportSection(tx, rx, default_), RtcpReport.SdesSection(chosen, ssrc);
    SdesIsSmall(chosen, ssrc);
    HeedsInTurn(k, tx, rx, default_);
    RtcpReport.Associates(section, sdes, rest);
    FirstSectionWalk(tx, rx, default_, sdes + rest, |section| + |sdes|, k);
    SdesWalk(section, chosen, ssrc, rest, |section| + |sdes|, k);
  }

  /** The first section of a report, with its header; more octets of the packet follow. */
  lemma FirstSectionWalk(tx: Option<RtcpReport.Tx>, rx: seq<RtcpReport.Rx>, default_: u32, after: Bytes, size: nat, k: Known)
    requires |RtcpReport.Blocks(rx)| < 32
    requires |RtcpReport.ReportSection(tx, rx, default_)| < size <= |RtcpReport.ReportSection(tx, rx, default_) + after|
    ensures var section := RtcpReport.ReportSection(tx, rx, default_);
            var b := section + after;
            var v := Walk(b, 0, size, true, 0, k);
            && section != []
            && if !HeedsFirst(k, tx, rx) then v.code == Refused
               else
                 var w := Walk(b, |section|, size, false, |section|, k);
                 && v.code == w.code && v.lastAt == w.lastAt
                 && ((RtcpReport.SendsSr(tx) ==> Match(k, tx.value.report.ssrc) == Receiving) ==>
                       v.heard == ReportHeard(tx, RtcpReport.Blocks(rx)) + w.heard)
  {
    hide Walk, ReadHeader, SizeAfterHeader, RtcpReport.ReportSection, Section, Match, AllOwn, RtcpReport.Blocks, ReportHeard;
    var section, h := RtcpReport.ReportSection(tx, rx, default_), RtcpReport.ReportHeader(tx, rx, default_);
    RtcpReport.ReportSectionAgrees(tx, rx, default_);
    HeaderInFront(tx, rx, default_, after, size);
    ReportSectionHeard(tx, rx, default_, after, size, k);
    SectionIgnoresSsrc(section + after, |WriteHeader(h)|, size, h, k);
    assert h.pt == ERTCP_SR || h.pt == ERTCP_RR;
    hide WriteHeader;
    WalkOneSection(section + after, 0, size, true, 0, k);
  }

  /** A BYE that ends a packet, from its header on. */
  lemma ByeWalk(before: Bytes, bye: Bye, after: Bytes, k: Known)
    requires before != [] && |bye.reason| < 0x100
    ensures var section := RtcpReport.ByeSection(bye);
            var v := Walk(before + section + after, |before|, |before| + |section|, false, |before|, k);
            && section != [] && v.lastAt == |before|
            && match Match(k, bye.ssrc)
               case Receiving => v.code == Found && v.heard == [ByeHeard(bye)]
               case Transmitting => v.code == Refused
               case Unknown => v.heard == [] && v.code == if k.leftover == Receiving then AllDone else Refused
  {
    hide Walk, ReadHeader, SizeAfterHeader, Section, Match;
    ByeHeaderReads(before, bye, after);
    ByeSectionHeard(before, bye, after, k);
    var section := RtcpReport.ByeSection(bye);
    hide RtcpReport.ByeSection;
    WalkOneSection(before + section + after, |before|, |before| + |section|, false, |before|, k);
  }

  lemma ByeHeaderReads(before: Bytes, bye: Bye, after: Bytes)
    requires before != [] && |bye.reason| < 0x100
    ensures var section, h := RtcpReport.ByeSection(bye), RtcpReport.ByeHeader(bye);
            var b, size := before + section + after, |before| + |section|;
            && SizeAfterHeader(b, |before|, size) == size
            && ReadHeader(b, |before|, size) == Ok(Read(h, |before| + 4))
            && |section| == (h.length + 1) * 4 && |section| > 8
  {
    assert Gap(1 + |bye.reason|) < 4;
    hide ReadHeader, SizeAfterHeader, WriteHeader, WriteBye, Gap;
    var h, octets := RtcpReport.ByeHeader(bye), WriteBye(bye, Gap(1 + |bye.reason|));
    RtcpReport.GapFills(1 + |bye.reason|);
    HeaderOfSection(before, h, octets, after, |before| + |RtcpReport.ByeSection(bye)|);
  }

  lemma ByeSectionHeard(before: Bytes, bye: Bye, after: Bytes, k: Known)
    requires |bye.reason| < 0x100
    ensures var section := RtcpReport.ByeSection(bye);
            var end := |before| + |section|;
            Section(before + section + after, |before| + 4, end, RtcpReport.ByeHeader(bye), k) ==
            ForStream(AllDone, end, Match(k, bye.ssrc), k.leftover, ByeHeard(bye))
  {
    hide ReadBye, WriteBye, WriteHeader, Gap, Match;
    var header, padding := WriteHeader(RtcpReport.ByeHeader(bye)), Gap(1 + |bye.reason|);
    var b := before + RtcpReport.ByeSection(bye) + after;
    assert b == (before + header) + WriteBye(bye, padding) + after;
    ByeRoundTrip(before + header, bye, padding, after);
  }

  /**
   A last report, with the BYE that follows it.  It ends the reading as that of a known receiving stream
   exactly if the receiver heeds the report and receives the stream the BYE names, and then all of the
   report and the BYE are handed on; for a stream it does not know, the BYE's fate hangs on a stream type
   that was never set.
   */
  lemma ReportWithByeIsHeard(
      tx: Option<RtcpReport.Tx>, rx: seq<RtcpReport.Rx>, default_: u32, items: Items, cnameOnly: bool, bye: Bye, rest: Bytes,
      k: Known)
    requires |RtcpReport.Blocks(rx)| < 32 && Short(items) && |bye.reason| < 0x100
    ensures var report := RtcpReport.Compound(tx, rx, default_, items, cnameOnly) + RtcpReport.ByeSection(bye);
            var v := Walk(report + rest, 0, |report|, true, 0, k);
            var heard := ReportHeard(tx, RtcpReport.Blocks(rx))
                         + [SdesHeard(Sdes(RtcpReport.Ssrc(tx, default_), RtcpReport.Chosen(items, cnameOnly)))];
            && (v.code == Found <==> Heeds(k, tx, rx, default_) && Match(k, bye.ssrc) == Receiving)
            && (v.code == Found ==> v.heard == heard + [ByeHeard(bye)])
            && (v.code == AllDone <==>
                Heeds(k, tx, rx, default_) && Match(k, bye.ssrc) == Unknown && k.leftover == Receiving)
            && (v.code == AllDone ==> v.heard == heard)
  {
    hide Walk, RtcpReport.ReportSection, RtcpReport.SdesSection, RtcpReport.ByeSection, Heeds, HeedsFirst, HeedsSdes,
      RtcpReport.Blocks, ReportHeard, Match;
    var ssrc, chosen := RtcpReport.Ssrc(tx, default_), RtcpReport.Chosen(items, cnameOnly);
    var section, sdes := RtcpReport.ReportSection(tx, rx, default_), RtcpReport.SdesSection(chosen, ssrc);
    var last := RtcpReport.ByeSection(bye);
    var size := |section| + |sdes| + |last|;
    SdesIsSmall(chosen, ssrc);
    HeedsInTurn(k, tx, rx, default_);
    ByeWalk(section + sdes, bye, rest, k);
    Parts(section, sdes, last, rest);
    FirstSectionWalk(tx, rx, default_, sdes + (last + rest), size, k);
    SdesWalk(section, chosen, ssrc, last + rest, size, k);
  }

  /** An APP of whole words that ends a packet, from its header on. */
  lemma AppWalk(before: Bytes, app: App, subType: nat, after: Bytes, k: Known)
    requires before != [] && |app.name| == 4 && |app.data| % 4 == 0 && |app.data| / 4 + 2 < 0x1_0000 && subType < 32
    ensures var section := RtcpReport.AppSection(app, subType);
            var v := Walk(before + section + after, |before|, |before| + |section|, false, |before|, k);
            && section != []
            && match Match(k, app.ssrc)
               case Receiving =>
                 if |app.data| <= KMaxRtcpAppData then v.code == Found && v.heard == [AppHeard(app)] else v.code == Outside
               case Transmitting => v.code == Refused
               case Unknown => v.heard == [] && v.code == if k.leftover == Receiving then AllDone else Refused
  {
    hide Walk, ReadHeader, SizeAfterHeader, Section, Match;
    AppHeaderReads(before, app, subType, after);
    AppSectionHeard(before, app, subType, after, k);
    var section := RtcpReport.AppSection(app, subType);
    hide RtcpReport.AppSection;
    WalkOneSection(before + section + after, |before|, |before| + |section|, false, |before|, k);
  }

  lemma AppHeaderReads(before: Bytes, app: App, subType: nat, after: Bytes)
    requires before != [] && |app.name| == 4 && |app.data| % 4 == 0 && |app.data| / 4 + 2 < 0x1_0000 && subType < 32
    ensures var section, h := RtcpReport.AppSection(app, subType), RtcpReport.AppHeaderOf(app, subType);
            var b, size := before + section + after, |before| + |section|;
            && SizeAfterHeader(b, |before|, size) == size
            && ReadHeader(b, |before|, size) == Ok(Read(h, |before| + 4))
            && |section| == (h.length + 1) * 4 && |section| > 8
  {
    hide ReadHeader, SizeAfterHeader, WriteHeader, WriteApp;
    HeaderOfSection(before, RtcpReport.AppHeaderOf(app, subType), WriteApp(app), after,
                    |before| + |RtcpReport.AppSection(app, subType)|);
  }

  /** Application data of more than 512 octets is copied past the end of the receiver's array. */
  lemma AppSectionHeard(before: Bytes, app: App, subType: nat, after: Bytes, k: Known)
    requires |app.name| == 4 && |app.data| % 4 == 0 && |app.data| / 4 + 2 < 0x1_0000
    ensures var section := RtcpReport.AppSection(app, subType);
            var end := |before| + |section|;
            Section(before + section + after, |before| + 4, end, RtcpReport.AppHeaderOf(app, subType), k) ==
            if Match(k, app.ssrc) == Receiving && |app.data| > KMaxRtcpAppData then Outcome(Outside, end, [])
            else ForStream(AllDone, end, Match(k, app.ssrc), k.leftover, AppHeard(app))
  {
    hide ReadApp, WriteApp, WriteHeader, Match;
    var header := WriteHeader(RtcpReport.AppHeaderOf(app, subType));
    var b := before + RtcpReport.AppSection(app, subType) + after;
    assert b == (before + header) + WriteApp(app) + after;
    AppRoundTrip(before + header, app, after);
    assert (|app.data| / 4 + 2) % 0x1_0000 == |app.data| / 4 + 2;
  }

  /**
   A report with an APP of whole words behind it.  All of it is handed on exactly if the receiver heeds the
   report, receives the stream the APP names, and the application data is at most 512 octets; with more
   data the receiver writes outside its array.
   */
  lemma ReportWithAppIsHeard(
      tx: Option<RtcpReport.Tx>, rx: seq<RtcpReport.Rx>, default_: u32, items: Items, cnameOnly: bool, app: App, subType: nat,
      rest: Bytes, k: Known)
    requires |RtcpReport.Blocks(rx)| < 32 && Short(items)
    requires |app.name| == 4 && |app.data| % 4 == 0 && |app.data| / 4 + 2 < 0x1_0000 && subType < 32
    ensures var report := RtcpReport.Compound(tx, rx, default_, items, cnameOnly) + RtcpReport.AppSection(app, subType);
            var v := Walk(report + rest, 0, |report|, true, 0, k);
            var heard := ReportHeard(tx, RtcpReport.Blocks(rx))
                         + [SdesHeard(Sdes(RtcpReport.Ssrc(tx, default_), RtcpReport.Chosen(items, cnameOnly)))];
            var receives := Heeds(k, tx, rx, default_) && Match(k, app.ssrc) == Receiving;
            && (v.code == Found <==> receives && |app.data| <= KMaxRtcpAppData)
            && (v.code == Found ==> v.heard == heard + [AppHeard(app)])
            && (v.code == Outside <==> receives && |app.data| > KMaxRtcpAppData)
  {
    hide Walk, RtcpReport.ReportSection, RtcpReport.SdesSection, RtcpReport.AppSection, Heeds, HeedsFirst, HeedsSdes,
      RtcpReport.Blocks, ReportHeard, Match;
    var ssrc, chosen := RtcpReport.Ssrc(tx, default_), RtcpReport.Chosen(items, cnameOnly);
    var section, sdes := RtcpReport.ReportSection(tx, rx, default_), RtcpReport.SdesSection(chosen, ssrc);
    var last := RtcpReport.AppSection(app, subType);
    var size := |section| + |sdes| + |last|;
    SdesIsSmall(chosen, ssrc);
    HeedsInTurn(k, tx, rx, default_);
    AppWalk(section + sdes, app, subType, rest, k);
    Parts(section, sdes, last, rest);
    FirstSectionWalk(tx, rx, default_, sdes + (last + rest), size, k);
    SdesWalk(section, chosen, ssrc, last + rest, size, k);
  }

  lemma Parts(a: Bytes, b: Bytes, c: Bytes, d: Bytes)
    ensures a + b + c + d == (a + b) + c + d == a + b + (c + d) == a + (b + (c + d))
  {
  }

  lemma SectionIgnoresSsrc(b: Bytes, at: nat, size: int, h: Header, k: Known)
    requires at < size
    ensures Section(b, at, size, h.(ssrc := 0), k) == Section(b, at, size, h, k)
  {
  }

  lemma HeaderInFront(tx: Option<RtcpReport.Tx>, rx: seq<RtcpReport.Rx>, default_: u32, after: Bytes, size: nat)
    requires |RtcpReport.Blocks(rx)| < 32
    requires |RtcpReport.ReportSection(tx, rx, default_)| < size <= |RtcpReport.ReportSection(tx, rx, default_) + after|
    ensures var b, h := RtcpReport.ReportSection(tx, rx, default_) + after, RtcpReport.ReportHeader(tx, rx, default_);
            && SizeAfterHeader(b, 0, size) == size
            && ReadHeader(b, 0, size) == Ok(Read(if h.pt == ERTCP_RR then h else h.(ssrc := 0), |WriteHeader(h)|))
            && |WriteHeader(h)| <= |RtcpReport.ReportSection(tx, rx, default_)|
  {
    hide ReadHeader, SizeAfterHeader, WriteSr, RtcpReport.WriteBlocks, RtcpReport.Blocks, RtcpReport.Empty;
    var h := RtcpReport.ReportHeader(tx, rx, default_);
    RtcpReport.ReportSectionAgrees(tx, rx, default_);
    var tail := (if RtcpReport.SendsSr(tx) then WriteSr(tx.value.report) else [])
                + RtcpReport.WriteBlocks(if RtcpReport.Empty(tx, rx) then [] else RtcpReport.Blocks(rx)) + after;
    hide WriteHeader;
    assert RtcpReport.ReportSection(tx, rx, default_) + after == [] + WriteHeader(h) + tail;
    HeaderReads([], h, tail, size);
  }

  lemma SdesIsSmall(items: Items, ssrc: u32)
    requires Short(items)
    ensures 8 < |RtcpReport.SdesSection(items, ssrc)| < 0x1_0000
  {
    hide Count, Total, WriteItems;
    ItemsSize(items, 0);
    TotalIsSmall(items, 0);
  }

  lemma {:induction false} TotalIsSmall(items: Items, i: nat)
    requires i <= 8 && Short(items)
    ensures 2 * Count(items, i) + Total(items, i) <= 0x102 * (8 - i)
    decreases 8 - i
  {
    if i < 8 {
      TotalIsSmall(items, i + 1);
    }
  }

  // ----- The receiver -----

  lemma BeforeTwice(a: seq<Heard>, b: seq<Heard>, o: Outcome)
    ensures Before(a, Before(b, o)) == Before(a + b, o)
  {
    assert a + (b + o.heard) == a + b + o.heard;
  }

  lemma BeforeNothing(o: Outcome)
    ensures Before([], o) == o
  {
    assert [] + o.heard == o.heard;
  }

  function OfProgress(p: Progress): Code {
    match p
    case NoError => AllDone
    case More => GoOn
    case Error => Refused
  }

  class Receiver {
    const iPktRtcpRcv: RtpPackets.RtpPacket
    const known: Known
    var heard: seq<Heard>

    constructor (packet: RtpPackets.RtpPacket, known: Known)
      ensures iPktRtcpRcv == packet && this.known == known && heard == []
    {
      iPktRtcpRcv, this.known, heard := packet, known, [];
    }

    /** What a method did: its code, what it handed on, and, if reading goes on, where. */
    ghost predicate Did(o: Outcome, code: Code, told: seq<Heard>)
      reads this, iPktRtcpRcv
    {
      code == o.code && heard == told + o.heard && (code == GoOn ==> iPktRtcpRcv.iDataPtr == o.at)
    }

    /** The end of RtpPacketProcessL, and the failures before it. */
    method Finish() returns (code: Code)
      modifies iPktRtcpRcv`iDataPtr
      ensures code == CodeAt(old(iPktRtcpRcv.iDataPtr), iPktRtcpRcv.iSize)
      ensures code == GoOn ==> iPktRtcpRcv.iDataPtr == old(iPktRtcpRcv.iDataPtr)
    {
      var progress := iPktRtcpRcv.Finish();
      code := OfProgress(progress);
    }

    /** One block, for the stream it names. */
    method ProcessBlock() returns (code: Code)
      modifies this`heard, iPktRtcpRcv`iDataPtr
      ensures var o := RrBlocks(iPktRtcpRcv.iBuf[..], old(iPktRtcpRcv.iDataPtr), iPktRtcpRcv.iSize, 1, known);
              Did(o, code, old(heard))
    {
      hide ReadRr, Match, Read32;
      var at := iPktRtcpRcv.iDataPtr;
      if at + 4 > iPktRtcpRcv.iBuf.Length {
        return Outside;
      }
      var stream := Match(known, Read32(iPktRtcpRcv.iBuf[..], at));
      if stream == Unknown {
        return Refused;
      }
      var block := iPktRtcpRcv.ProcessRr();
      if block.Leave? {
        return if block.error == Panic then Outside else Refused;
      }
      code := Finish();
      if code == Refused || stream == Receiving {
        return Refused;
      }
      heard := heard + [RrHeard(block.value)];
    }

    method ProcessRRSectionL(sourceCount: nat) returns (code: Code)
      requires sourceCount > 0
      modifies this`heard, iPktRtcpRcv`iDataPtr
      ensures var o := RrBlocks(iPktRtcpRcv.iBuf[..], old(iPktRtcpRcv.iDataPtr), iPktRtcpRcv.iSize, sourceCount, known);
              Did(o, code, old(heard))
    {
      hide RrBlocks, Before;
      ghost var b, size, k, told := iPktRtcpRcv.iBuf[..], iPktRtcpRcv.iSize, known, heard;
      ghost var o := RrBlocks(b, iPktRtcpRcv.iDataPtr, size, sourceCount, k);
      ghost var done: seq<Heard> := [];
      var left := sourceCount;
      BeforeNothing(o);
      while true
        invariant left > 0 && heard == told + done && iPktRtcpRcv.iBuf[..] == b
        invariant o == Before(done, RrBlocks(b, iPktRtcpRcv.iDataPtr, size, left, k))
        decreases left
      {
        FirstBlock(b, iPktRtcpRcv.iDataPtr, size, left, k, done);
        ghost var first := RrBlocks(b, iPktRtcpRcv.iDataPtr, size, 1, k);
        code := ProcessBlock();
        assert heard == told + (done + first.heard);
        if code != GoOn || left == 1 {
          return;
        }
        done := done + first.heard;
        left := left - 1;
      }
    }

    method ProcessSRSectionL(sourceCount: nat) returns (code: Code)
      modifies this`heard, iPktRtcpRcv`iDataPtr
      ensures var o := SrSection(iPktRtcpRcv.iBuf[..], old(iPktRtcpRcv.iDataPtr), iPktRtcpRcv.iSize, sourceCount, known);
              Did(o, code, old(heard))
    {
      hide ReadSr, Match, Read32, RrBlocks;
      var at := iPktRtcpRcv.iDataPtr;
      if at + 4 > iPktRtcpRcv.iBuf.Length {
        return Outside;
      }
      var stream := Match(known, Read32(iPktRtcpRcv.iBuf[..], at));
      if stream == Unknown {
        return Refused;
      }
      var sr := iPktRtcpRcv.ProcessSr();
      if sr.Leave? {
        return if sr.error == Panic then Outside else Refused;
      }
      code := Finish();
      if code != Refused && stream == Receiving {
        heard := heard + [SrHeard(sr.value)];
      }
      if code == GoOn && sourceCount > 0 {
        code := ProcessRRSectionL(sourceCount);
      }
    }

    method ProcessSDESSectionL() returns (code: Code)
      modifies this`heard, iPktRtcpRcv`iDataPtr
      ensures var o := SdesSection(iPktRtcpRcv.iBuf[..], old(iPktRtcpRcv.iDataPtr), iPktRtcpRcv.iSize, known);
              Did(o, code, old(heard))
    {
      hide ReadSdes, Match;
      var sdes := iPktRtcpRcv.ProcessSdes();
      if sdes.Leave? {
        return if sdes.error == Panic then Outside else Refused;
      }
      code := Finish();
      if code == Refused {
        return;
      }
      var stream := Match(known, sdes.value.ssrc);
      if stream == Receiving || (stream == Unknown && known.tx != {} && known.rx == {}) {
        heard := heard + [SdesHeard(sdes.value)];
      } else {
        code := Refused;
      }
    }

    /** What BYE and APP do with the stream found; the leftover type counts when none was. */
    method Tell(code: Code, ssrc: u32, what: Heard) returns (result: Code)
      modifies this`heard
      ensures var o := ForStream(code, 0, Match(known, ssrc), known.leftover, what);
              result == o.code && heard == old(heard) + o.heard
    {
      hide Match;
      if code == Refused {
        return Refused;
      }
      var found := Match(known, ssrc);
      var streamType := if found == Unknown then known.leftover else found;
      if streamType != Receiving {
        return Refused;
      }
      if found != Unknown {
        heard := heard + [what];
        return Found;
      }
      return code;
    }

    /** ProcessBYESectionL and ProcessAPPSectionL */
    method ProcessByeOrApp(h: Header) returns (code: Code)
      requires iPktRtcpRcv.iDataPtr < iPktRtcpRcv.iSize && h.pt != ERTCP_SR && h.pt != ERTCP_RR && h.pt != ERTCP_SDES
      modifies this`heard, iPktRtcpRcv`iDataPtr
      ensures var o := Section(iPktRtcpRcv.iBuf[..], old(iPktRtcpRcv.iDataPtr), iPktRtcpRcv.iSize, h, known);
              Did(o, code, old(heard))
    {
      hide ReadBye, ReadApp, Match;
      if h.pt == ERTCP_BYE {
        var bye := iPktRtcpRcv.ProcessBye();
        if bye.Leave? {
          return if bye.error == Panic then Outside else Refused;
        }
        code := Finish();
        code := Tell(code, bye.value.ssrc, ByeHeard(bye.value));
      } else {
        var app := iPktRtcpRcv.ProcessApp(h.length % 0x1_0000);
        if app.Leave? {
          return if app.error == Panic then Outside else Refused;
        }
        code := Finish();
        if code != Refused && Match(known, app.value.ssrc) == Receiving && |app.value.data| > KMaxRtcpAppData {
          return Outside;
        }
        code := Tell(code, app.value.ssrc, AppHeard(app.value));
      }
    }

    method ProcessOneRTCPReportSectionL(h: Header) returns (code: Code)
      requires iPktRtcpRcv.iDataPtr < iPktRtcpRcv.iSize
      modifies this`heard, iPktRtcpRcv`iDataPtr
      ensures var o := Section(iPktRtcpRcv.iBuf[..], old(iPktRtcpRcv.iDataPtr), iPktRtcpRcv.iSize, h, known);
              Did(o, code, old(heard))
    {
      hide SrSection, RrBlocks, SdesSection, ReadBye, ReadApp, Match;
      if h.pt == ERTCP_SR {
        code := ProcessSRSectionL(h.sourceCount);
      } else if h.pt == ERTCP_RR {
        if h.sourceCount == 0 {
          heard := heard + [EmptyRr];
          code := GoOn;
        } else {
          code := ProcessRRSectionL(h.sourceCount);
        }
      } else if h.pt == ERTCP_SDES {
        code := ProcessSDESSectionL();
      } else {
        code := ProcessByeOrApp(h);
      }
    }

    /** One turn of the loop: more tells that reading goes on, with the lengths so far in total. */
    method ProcessSection(first: bool, packetLength: nat) returns (code: Code, more: bool, total: nat)
      requires iPktRtcpRcv.iDataPtr <= iPktRtcpRcv.iSize <= iPktRtcpRcv.iBuf.Length
      modifies this`heard, iPktRtcpRcv`iDataPtr, iPktRtcpRcv`iSize
      ensures var v := Walk(iPktRtcpRcv.iBuf[..], old(iPktRtcpRcv.iDataPtr), old(iPktRtcpRcv.iSize), first, packetLength, known);
              if !more then code == v.code && heard == old(heard) + v.heard
              else
                && old(iPktRtcpRcv.iDataPtr) < iPktRtcpRcv.iDataPtr < iPktRtcpRcv.iSize <= old(iPktRtcpRcv.iSize)
                && var rest := Walk(iPktRtcpRcv.iBuf[..], iPktRtcpRcv.iDataPtr, iPktRtcpRcv.iSize, false, total, known);
                   v.code == rest.code && old(heard) + v.heard == heard + rest.heard
    {
      hide Walk, Section, ReadHeader, SizeAfterHeader;
      ghost var b, at, size := iPktRtcpRcv.iBuf[..], iPktRtcpRcv.iDataPtr, iPktRtcpRcv.iSize;
      WalkOneSection(b, at, size, first, packetLength, known);
      more, total := false, packetLength;
      var h := iPktRtcpRcv.ProcessRtcp();
      if h.Leave? {
        code := if h.error == Panic then Outside else Refused;
        return;
      }
      HeaderBounds(b, at, size);
      code := Finish();
      if code != GoOn {
        return;
      }
      if first && h.value.pt != ERTCP_SR && h.value.pt != ERTCP_RR {
        code := Refused;
        return;
      }
      code := ProcessOneRTCPReportSectionL(h.value);
      if code == Found || code == Outside {
        return;
      }
      total := packetLength + (h.value.length + 1) * 4;
      if code == GoOn {
        more := true;
      } else if total != iPktRtcpRcv.iSize {
        code := Refused;
      }
    }

    /**
     ProcessRTCPReportL: the loop over the sections of a compound packet.  It ends on every buffer,
     because each section that goes on leaves the cursor further and inside the packet.
     */
    method ProcessRTCPReportL() returns (code: Code)
      requires 0 <= iPktRtcpRcv.iSize <= iPktRtcpRcv.iBuf.Length
      modifies this`heard, iPktRtcpRcv`iDataPtr, iPktRtcpRcv`iSize
      ensures var v := Walk(iPktRtcpRcv.iBuf[..], 0, old(iPktRtcpRcv.iSize), true, 0, known);
              code == v.code && heard == old(heard) + v.heard
    {
      hide Walk;
      ghost var b, told := iPktRtcpRcv.iBuf[..], heard;
      ghost var v := Walk(b, 0, iPktRtcpRcv.iSize, true, 0, known);
      iPktRtcpRcv.iDataPtr := 0;
      var packetLength: nat, first, more := 0, true, true;
      code := GoOn;
      while more
        invariant iPktRtcpRcv.iBuf[..] == b
        invariant !more ==> code == v.code && heard == told + v.heard
        invariant more ==>
                    && iPktRtcpRcv.iDataPtr <= iPktRtcpRcv.iSize <= |b|
                    && var w := Walk(b, iPktRtcpRcv.iDataPtr, iPktRtcpRcv.iSize, first, packetLength, known);
                       v.code == w.code && told + v.heard == heard + w.heard
        decreases more, iPktRtcpRcv.iSize - iPktRtcpRcv.iDataPtr
      {
        code, more, packetLength := ProcessSection(first, packetLength);
        first := false;
      }
    }
  }

  /** The blocks are read one after the other. */
  lemma FirstBlock(b: Bytes, at: nat, size: int, n: nat, k: Known, done: seq<Heard>)
    requires n > 0
    ensures var first := RrBlocks(b, at, size, 1, k);
            var all := Before(done, RrBlocks(b, at, size, n, k));
            if first.code != GoOn || n == 1 then all.code == first.code && all.at == first.at && all.heard == done + first.heard
            else all == Before(done + first.heard, RrBlocks(b, first.at, size, n - 1, k))
  {
    hide ReadRr, Match, Read32;
    var first := RrBlocks(b, at, size, 1, k);
    if first.code == GoOn && n > 1 {
      assert RrBlocks(b, at, size, n, k) == Before(first.heard, RrBlocks(b, first.at, size, n - 1, k));
      BeforeTwice(done, first.heard, RrBlocks(b, first.at, size, n - 1, k));
    }
  }
}
