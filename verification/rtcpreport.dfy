/**
 The report builder of a session (rtpsession.cpp, rtptranstream.cpp): an SR or RR section with a
 block for every receiving stream that has something to report, then an SDES section.
 */
module RtcpReport {
  import opened Outcomes
  import opened Machine
  import opened Octets
  import opened RtcpLayout
  import opened RtpPackets
  import opened Reception
  import opened TranStream

  const KSDES_SEND_PACKET := 5
  const KMaxNumActiveRcvStreams := 128
  const KMaxRtcpPacketSize := 1024
  const KMaxRtcpReason := 255
  const KMaxRtcpAppData := 512

  /** A transmission stream: whether it has sent its first packet, whether it has sent since the last
      report, and the SR section it would write. */
  datatype Tx = Tx(firstPkg: bool, sent: bool, report: SenderReport)

  /** A receiving stream likewise, with the report block it would write. */
  datatype Rx = Rx(firstPkg: bool, received: bool, block: ReportBlock)

  predicate Reports(r: Rx) { !r.firstPkg && r.received }

  /** The blocks of the streams that report. */
  function Blocks(rx: seq<Rx>): (r: seq<ReportBlock>)
    ensures |r| <= |rx|
  {
    if rx == [] then []
    else Blocks(rx[..|rx| - 1]) + if Reports(rx[|rx| - 1]) then [rx[|rx| - 1].block] else []
  }

  function WriteBlocks(blocks: seq<ReportBlock>): (r: Bytes)
    ensures |r| == 24 * |blocks|
  {
    if blocks == [] then [] else WriteBlocks(blocks[..|blocks| - 1]) + WriteRr(blocks[|blocks| - 1])
  }

  predicate SendsSr(tx: Option<Tx>) { tx.Some? && tx.value.sent }

  predicate Empty(tx: Option<Tx>, rx: seq<Rx>) { !SendsSr(tx) && forall i | 0 <= i < |rx| :: !rx[i].received }

  function Ssrc(tx: Option<Tx>, default_: u32): u32 { if tx.Some? then tx.value.report.ssrc else default_ }

  /** The header of the SR or RR section. */
  function ReportHeader(tx: Option<Tx>, rx: seq<Rx>, default_: u32): Header {
    if Empty(tx, rx) then Header(0, ERTCP_RR, 1, Ssrc(tx, default_))
    else if SendsSr(tx) then Header(|Blocks(rx)|, ERTCP_SR, 1 + 5 + 6 * |Blocks(rx)|, Ssrc(tx, default_))
    else Header(|Blocks(rx)|, ERTCP_RR, 1 + 6 * |Blocks(rx)|, Ssrc(tx, default_))
  }

  function ReportSection(tx: Option<Tx>, rx: seq<Rx>, default_: u32): Bytes
  {
    WriteHeader(ReportHeader(tx, rx, default_))
    + (if SendsSr(tx) then WriteSr(tx.value.report) else [])
    + WriteBlocks(if Empty(tx, rx) then [] else Blocks(rx))
  }

  /** All items, or the CNAME alone. */
  function Chosen(items: Items, cnameOnly: bool): (r: Items)
    ensures Short(items) ==> Short(r)
  {
    if cnameOnly then [items[0], [], [], [], [], [], [], []] else items
  }

  function SdesOctets(items: Items): nat { 2 * Count(items, 0) + Total(items, 0) + 1 }

  function SdesHeader(items: Items): Header {
    var n := SdesOctets(items);
    Header(1, ERTCP_SDES, (n + Gap(n)) / 4 + 1, 0)
  }

  function SdesSection(items: Items, ssrc: u32): Bytes
    requires Short(items)
  {
    WriteHeader(SdesHeader(items)) + WriteSdes(Sdes(ssrc, items), Gap(SdesOctets(items)))
  }

  function ByeHeader(bye: Bye): Header {
    var n := 1 + |bye.reason|;
    Header(1, ERTCP_BYE, (n + Gap(n)) / 4 + 1, 0)
  }

  function ByeSection(bye: Bye): Bytes
    requires |bye.reason| < 0x100
  {
    WriteHeader(ByeHeader(bye)) + WriteBye(bye, Gap(1 + |bye.reason|))
  }

  function AppHeaderOf(app: App, subType: nat): Header { Header(subType, ERTCP_APP, |app.data| / 4 + 2, 0) }

  function AppSection(app: App, subType: nat): Bytes
    requires |app.name| == 4
  {
    WriteHeader(AppHeaderOf(app, subType)) + WriteApp(app)
  }

  // ----- Headers and octets agree -----

  lemma {:induction false} NoBlocks(rx: seq<Rx>)
    requires forall i | 0 <= i < |rx| :: !rx[i].received
    ensures Blocks(rx) == []
  {
    if rx != [] {
      NoBlocks(rx[..|rx| - 1]);
    }
  }

  /** The header's length field counts the words of the section behind the first, and its source count
      the report blocks in it. */
  lemma ReportSectionAgrees(tx: Option<Tx>, rx: seq<Rx>, default_: u32)
    ensures var h := ReportHeader(tx, rx, default_);
            && |ReportSection(tx, rx, default_)| == (h.length + 1) * 4
            && h.sourceCount == |Blocks(rx)|
  {
    if Empty(tx, rx) {
      NoBlocks(rx);
    }
  }

  lemma SdesSectionAgrees(items: Items, ssrc: u32)
    requires Short(items)
    ensures |SdesSection(items, ssrc)| == (SdesHeader(items).length + 1) * 4
  {
    hide Count, Total, WriteItems;
    ItemsSize(items, 0);
    GapFills(SdesOctets(items));
  }

  lemma GapFills(n: nat)
    ensures (n + Gap(n)) % 4 == 0
  {
  }

  /** The same for a BYE and for APP data of whole words. */
  lemma ByeSectionAgrees(bye: Bye)
    requires |bye.reason| < 0x100
    ensures var n := 1 + |bye.reason|;
            var length := n / 4 + if n % 4 == 0 then 1 else 2;
            4 + |WriteBye(bye, Gap(n))| == (length + 1) * 4
  {
  }

  lemma AppSectionAgrees(app: App)
    requires |app.name| == 4
    ensures 4 + |WriteApp(app)| == (|app.data| / 4 + 2 + 1) * 4 <==> |app.data| % 4 == 0
  {
  }

  // ----- The builder -----

  function Compound(tx: Option<Tx>, rx: seq<Rx>, default_: u32, items: Items, cnameOnly: bool): Bytes
    requires Short(items)
  {
    ReportSection(tx, rx, default_) + SdesSection(Chosen(items, cnameOnly), Ssrc(tx, default_))
  }

  // ----- How large a report is -----

  /** The octets of a report, by the streams that report and the items that go with it. */
  function ReportSize(tx: Option<Tx>, rx: seq<Rx>, items: Items, cnameOnly: bool): nat {
    var n := SdesOctets(Chosen(items, cnameOnly));
    (if Empty(tx, rx) then 8 else (if SendsSr(tx) then 28 else 8) + 24 * |Blocks(rx)|) + 8 + n + Gap(n)
  }

  function ByeSize(reason: nat): (n: nat)
    ensures n > 8
  {
    9 + reason + Gap(1 + reason)
  }

  lemma CompoundSize(tx: Option<Tx>, rx: seq<Rx>, default_: u32, items: Items, cnameOnly: bool)
    requires Short(items)
    ensures |Compound(tx, rx, default_, items, cnameOnly)| == ReportSize(tx, rx, items, cnameOnly)
  {
    var chosen := Chosen(items, cnameOnly);
    FirstSectionSize(tx, rx, default_);
    SdesSectionSize(chosen, Ssrc(tx, default_));
    hide ReportSection, SdesSection, Count, Total, Gap;
  }

  lemma FirstSectionSize(tx: Option<Tx>, rx: seq<Rx>, default_: u32)
    ensures |ReportSection(tx, rx, default_)| ==
            if Empty(tx, rx) then 8 else (if SendsSr(tx) then 28 else 8) + 24 * |Blocks(rx)|
  {
    hide Blocks, WriteSr, WriteBlocks;
  }

  lemma SdesSectionSize(items: Items, ssrc: u32)
    requires Short(items)
    ensures |SdesSection(items, ssrc)| == 8 + SdesOctets(items) + Gap(SdesOctets(items))
  {
    ItemsSize(items, 0);
    hide Count, Total, WriteItems, Gap;
  }

  lemma ByeSectionSize(bye: Bye)
    requires |bye.reason| < 0x100
    ensures |ByeSection(bye)| == ByeSize(|bye.reason|)
  {
    hide Gap;
  }

  lemma AppSectionSize(app: App, subType: nat)
    requires |app.name| == 4
    ensures |AppSection(app, subType)| == 12 + |app.data|
  {
  }

  /** A packet written from the front of the buffer is there as a whole exactly if it fits. */
  lemma WholeOrNot(m: Buffer, packet: Bytes)
    requires packet != []
    ensures PutAt(m, 0, packet).Intact? <==> m.Intact? && |packet| <= |m.octets|
    ensures PutAt(m, 0, packet).Intact? ==>
              |packet| <= |PutAt(m, 0, packet).octets| && PutAt(m, 0, packet).octets[..|packet|] == packet
  {
    if PutAt(m, 0, packet).Intact? {
      PutPrefix(m, packet);
    }
  }

  /**
   The report fits the session's packet exactly if its size, known from the streams and items before the
   call, is at most 1024 octets.
   */
  lemma ReportFits(m: Buffer, tx: Option<Tx>, rx: seq<Rx>, default_: u32, items: Items, cnameOnly: bool)
    requires Short(items) && m.Intact? && |m.octets| == KMaxRtcpPacketSize
    ensures var report := Compound(tx, rx, default_, items, cnameOnly);
            var after := PutAt(m, 0, report);
            && (after.Intact? <==> ReportSize(tx, rx, items, cnameOnly) <= KMaxRtcpPacketSize)
            && (after.Intact? ==> |report| <= |after.octets| && after.octets[..|report|] == report)
  {
    hide Compound, ReportSize, PutAt;
    CompoundSize(tx, rx, default_, items, cnameOnly);
    NotEmpty(tx, rx, items, cnameOnly);
    WholeOrNot(m, Compound(tx, rx, default_, items, cnameOnly));
  }

  lemma NotEmpty(tx: Option<Tx>, rx: seq<Rx>, items: Items, cnameOnly: bool)
    ensures ReportSize(tx, rx, items, cnameOnly) > 0
  {
  }

  /** From 42 reporting streams on no report fits. */
  lemma FortyTwoBlocksOverrun(tx: Option<Tx>, rx: seq<Rx>, items: Items, cnameOnly: bool)
    requires |Blocks(rx)| >= 42
    ensures ReportSize(tx, rx, items, cnameOnly) > KMaxRtcpPacketSize
  {
    if Empty(tx, rx) {
      NoBlocks(rx);
    }
    hide Blocks, Count, Total;
  }

  lemma {:induction false} AllReport(block: ReportBlock, n: nat)
    ensures |Blocks(seq(n, _ => Rx(false, true, block)))| == n
  {
    var rx := seq(n, _ => Rx(false, true, block));
    if n > 0 {
      AllReport(block, n - 1);
      assert rx[..n - 1] == seq(n - 1, _ => Rx(false, true, block));
    }
  }

  /** 31 blocks behind an SR do not fit either when the CNAME is as long as it may be. */
  lemma ThirtyOneBlocksOverrun(tx: Tx, block: ReportBlock, cname: Bytes)
    requires tx.sent && |cname| == 255
    ensures var rx := seq(31, _ => Rx(false, true, block));
            ReportSize(Some(tx), rx, [cname, [], [], [], [], [], [], []], true) == 1040
  {
    AllReport(block, 31);
    hide Blocks;
    NoMoreCounted([cname, [], [], [], [], [], [], []]);
  }

  lemma NoMoreCounted(items: Items)
    requires forall k | 1 <= k < 8 :: items[k] == []
    ensures Count(items, 0) == (if items[0] == [] then 0 else 1) && Total(items, 0) == |items[0]|
  {
    NoItems(items, 1);
    OneItem(items, 0);
  }

  /** Nor does an SR without blocks when the eight items have 122 octets each. */
  lemma LongItemsOverrun(tx: Tx, item: Bytes)
    requires tx.sent && |item| == 122
    ensures ReportSize(Some(tx), [], seq(8, _ => item), false) == 1032
  {
    var items: Items := seq(8, _ => item);
    EqualItems(items, item, 0);
  }

  lemma {:induction false} EqualItems(items: Items, item: Bytes, i: nat)
    requires i <= 8 && item != [] && forall k | 0 <= k < 8 :: items[k] == item
    ensures Count(items, i) == 8 - i && Total(items, i) == (8 - i) * |item|
    decreases 8 - i
  {
    if i < 8 {
      OneItem(items, i);
      EqualItems(items, item, i + 1);
      assert (8 - i) * |item| == |item| + (8 - (i + 1)) * |item|;
    }
  }

  // ----- Who reports, and in whose name -----

  /** How many of the first i streams have received something since they last reported. */
  function Reporting(rx: seq<Rx>, i: nat): nat
    requires i <= |rx|
  {
    if i == 0 then 0 else Reporting(rx, i - 1) + if !rx[i - 1].firstPkg && rx[i - 1].received then 1 else 0
  }

  lemma {:induction false} BlocksOfFirst(rx: seq<Rx>, i: nat)
    requires i <= |rx|
    ensures |Blocks(rx[..i])| == Reporting(rx, i)
    ensures Blocks(rx[..i]) <= Blocks(rx)
    decreases |rx| - i, i
  {
    if i < |rx| {
      BlocksOfFirst(rx, i + 1);
      assert rx[..i + 1][..i] == rx[..i];
    } else {
      assert rx[..i] == rx;
      ReportingCounts(rx, i);
    }
  }

  lemma {:induction false} ReportingCounts(rx: seq<Rx>, i: nat)
    requires i <= |rx|
    ensures |Blocks(rx[..i])| == Reporting(rx, i)
  {
    if i > 0 {
      assert rx[..i][..i - 1] == rx[..i - 1];
      ReportingCounts(rx, i - 1);
    }
  }

  /** Each stream that has something to report, and no other, has its block in the report, in the order of the
      streams. */
  lemma BlocksInOrder(rx: seq<Rx>, i: nat)
    requires i < |rx|
    ensures |Blocks(rx)| == Reporting(rx, |rx|)
    ensures !rx[i].firstPkg && rx[i].received ==>
              Reporting(rx, i) < |Blocks(rx)| && Blocks(rx)[Reporting(rx, i)] == rx[i].block
  {
    ReportingCounts(rx, |rx|);
    assert rx[..|rx|] == rx;
    BlocksOfFirst(rx, i);
    BlocksOfFirst(rx, i + 1);
    assert rx[..i + 1][..i] == rx[..i];
  }

  lemma {:induction false} BlockSpells(before: Bytes, blocks: seq<ReportBlock>, after: Bytes, k: nat)
    requires k < |blocks|
    ensures exists front, back :: before + WriteBlocks(blocks) + after == front + WriteRr(blocks[k]) + back
                                  && |front| == |before| + 24 * k
    decreases |blocks|
  {
    hide WriteRr;
    var most, last := blocks[..|blocks| - 1], blocks[|blocks| - 1];
    var b := before + WriteBlocks(blocks) + after;
    if k < |most| {
      assert b == before + WriteBlocks(most) + (WriteRr(last) + after);
      BlockSpells(before, most, WriteRr(last) + after, k);
    } else {
      assert b == (before + WriteBlocks(most)) + WriteRr(last) + after;
    }
  }

  /** Where the blocks of a report begin. */
  function BlocksAt(tx: Option<Tx>): nat { if tx.Some? && tx.value.sent then 28 else 8 }

  /** A report on the wire: version, count and type; the SSRC of the stream that transmits, whether it has sent
      since the last report or not, or of the session when there is none; and block k in its place. */
  lemma ReportOnTheWire(tx: Option<Tx>, rx: seq<Rx>, default_: u32, after: Bytes, k: nat)
    requires |Blocks(rx)| < 32
    ensures var b, ssrc := ReportSection(tx, rx, default_) + after, if tx.Some? then tx.value.report.ssrc else default_;
            && |ReportSection(tx, rx, default_)| == BlocksAt(tx) + 24 * |Blocks(rx)|
            && b[0] == 0x80 + |Blocks(rx)| && b[1] == (if tx.Some? && tx.value.sent then 200 else 201)
            && Spells(b, 2, 2, (BlocksAt(tx) + 24 * |Blocks(rx)|) / 4 - 1)
            && Spells(b, 4, 4, ssrc)
            && (tx.Some? && tx.value.sent ==> ReportsSent(b, tx.value.report))
            && (k < |Blocks(rx)| ==> ReportsLoss(b, BlocksAt(tx) + 24 * k, Blocks(rx)[k]))
  {
    hide Blocks, WriteRr, WriteSr, WriteHeader, WriteBlocks, Spells, Empty, ReportsLoss, ReportsSent, Reports;
    var h, blocks := ReportHeader(tx, rx, default_), Blocks(rx);
    var sr := if SendsSr(tx) then WriteSr(tx.value.report) else [];
    HeaderParts(tx, rx, default_);
    var b := ReportSection(tx, rx, default_) + after;
    assert [] + WriteHeader(h) + (sr + WriteBlocks(blocks) + after) == b;
    HeaderOnTheWire([], h, sr + WriteBlocks(blocks) + after);
    if SendsSr(tx) {
      assert b == WriteHeader(h) + sr + (WriteBlocks(blocks) + after);
      SentOnTheWire(WriteHeader(h), tx.value.report, WriteBlocks(blocks) + after);
    }
    if k < |blocks| {
      BlockSpells(WriteHeader(h) + sr, blocks, after, k);
      var front, back :| b == front + WriteRr(blocks[k]) + back && |front| == |WriteHeader(h) + sr| + 24 * k;
      LossOnTheWire(front, blocks[k], back);
    }
  }

  lemma HeaderParts(tx: Option<Tx>, rx: seq<Rx>, default_: u32)
    ensures var h := ReportHeader(tx, rx, default_);
            && ReportSection(tx, rx, default_)
               == WriteHeader(h) + (if SendsSr(tx) then WriteSr(tx.value.report) else []) + WriteBlocks(Blocks(rx))
            && h.sourceCount == |Blocks(rx)| && h.pt == (if SendsSr(tx) then 200 else 201)
            && h.length == (BlocksAt(tx) + 24 * |Blocks(rx)|) / 4 - 1
            && h.ssrc == if tx.Some? then tx.value.report.ssrc else default_
  {
    hide Blocks, WriteRr, WriteSr, WriteHeader, WriteBlocks;
    if Empty(tx, rx) {
      NoBlocks(rx);
    }
  }

  /** The fields of a sender report behind a header of four octets. */
  predicate ReportsSent(b: Bytes, r: SenderReport) {
    && Spells(b, 4, 4, r.ssrc) && Spells(b, 8, 4, r.ntpSec) && Spells(b, 12, 4, r.ntpFrac) && Spells(b, 16, 4, r.timeStamp)
    && Spells(b, 20, 4, r.numPacketsSent) && Spells(b, 24, 4, r.cumNumOctetsSent)
  }

  lemma SentOnTheWire(header: Bytes, r: SenderReport, after: Bytes)
    requires |header| == 4
    ensures ReportsSent(header + WriteSr(r) + after, r) && Spells(header + WriteSr(r) + after, 4, 4, r.ssrc)
  {
    hide WriteSr, Spells;
    SrOnTheWire(header, r, after);
  }

  /** The fields of a report block at a position. */
  predicate ReportsLoss(b: Bytes, at: nat, r: ReportBlock) {
    && Spells(b, at, 4, r.ssrc) && Spells(b, at + 4, 1, r.fractionLost)
    && Spells(b, at + 5, 3, r.cumNumPacketsLost % 0x100_0000) && Spells(b, at + 8, 4, r.seqNumReceived)
    && Spells(b, at + 12, 4, r.arrivalJitter) && Spells(b, at + 16, 4, r.lastSR) && Spells(b, at + 20, 4, r.delaySinceLSR)
  }

  lemma LossOnTheWire(before: Bytes, r: ReportBlock, after: Bytes)
    ensures ReportsLoss(before + WriteRr(r) + after, |before|, r)
  {
    hide WriteRr, Value;
    var b, at := before + WriteRr(r) + after, |before|;
    RrOnTheWire(before, r, after);
    assert b[at + 4..at + 5] == [b[at + 4]];
    ValueOfFew(b[at + 4], 0, 0, 0);
  }

  /** The SDES behind the report is in the same name. */
  lemma SdesNames(tx: Option<Tx>, rx: seq<Rx>, default_: u32, items: Items, cnameOnly: bool)
    requires Short(items)
    ensures var b, at := Compound(tx, rx, default_, items, cnameOnly), |ReportSection(tx, rx, default_)|;
            && at + 8 <= |b| && b[at] == 0x81 && b[at + 1] == 202
            && Spells(b, at + 4, 4, if tx.Some? then tx.value.report.ssrc else default_)
            && (items[0] != [] ==> ItemAt(b, at + 8, 0, items[0]))
  {
    hide ReportSection, SdesSection, Spells, ItemAt;
    SectionNames(ReportSection(tx, rx, default_), Chosen(items, cnameOnly), Ssrc(tx, default_));
  }

  lemma SectionNames(before: Bytes, items: Items, ssrc: u32)
    requires Short(items)
    ensures var b, at := before + SdesSection(items, ssrc), |before|;
            && at + 8 <= |b| && b[at] == 0x81 && b[at + 1] == 202 && Spells(b, at + 4, 4, ssrc)
            && (items[0] != [] ==> ItemAt(b, at + 8, 0, items[0]))
  {
    var h, sdes := SdesHeader(items), WriteSdes(Sdes(ssrc, items), Gap(SdesOctets(items)));
    SdesLengthFits(items);
    SectionParts(before, items, ssrc);
    hide *;
    HeaderOnTheWire(before, h, sdes);
    NameAndFirst(before + WriteHeader(h), Sdes(ssrc, items), Gap(SdesOctets(items)));
  }

  lemma SectionParts(before: Bytes, items: Items, ssrc: u32)
    requires Short(items)
    ensures var h, sdes := SdesHeader(items), WriteSdes(Sdes(ssrc, items), Gap(SdesOctets(items)));
            && h.sourceCount == 1 && h.pt == 202
            && before + SdesSection(items, ssrc) == before + WriteHeader(h) + sdes
  {
    hide WriteHeader, WriteSdes, SdesOctets, Gap, Short;
  }

  lemma NameAndFirst(before: Bytes, s: Sdes, padding: nat)
    requires Short(s.items)
    ensures var b, at := before + WriteSdes(s, padding), |before|;
            at + 4 <= |b| && Spells(b, at, 4, s.ssrc) && (s.items[0] != [] ==> ItemAt(b, at + 4, 0, s.items[0]))
  {
    hide WriteSdes, Spells, ItemAt, Short;
    SdesOnTheWire(before, s, padding, []);
    assert before + WriteSdes(s, padding) + [] == before + WriteSdes(s, padding);
    assert InFrontOf(s.items, 0) == 0;
  }

  lemma SdesLengthFits(items: Items)
    requires Short(items)
    ensures SdesHeader(items).length < 0x1_0000
  {
    FewOctets(items, 0);
  }

  lemma {:induction false} FewOctets(items: Items, i: nat)
    requires i <= 8 && Short(items)
    ensures Count(items, i) <= 8 - i && Total(items, i) <= 0x100 * (8 - i)
    decreases 8 - i
  {
    if i < 8 {
      FewOctets(items, i + 1);
    }
  }

  // ----- What a report leaves -----

  /** Whether the SDES of the next report holds the CNAME alone, by the counter of reports. */
  predicate CnameOnly(counter: nat) { counter + 1 < KSDES_SEND_PACKET }

  function CountedReport(counter: nat): nat { if CnameOnly(counter) then counter + 1 else 0 }

  /** The counter behind n reports of a session. */
  function CounterAfter(n: nat): nat { if n == 0 then KSDES_SEND_PACKET else CountedReport(CounterAfter(n - 1)) }

  /** The first report of a session and every fifth after it hold all items, the others the CNAME alone. */
  lemma {:induction false} EveryFifthIsFull(n: nat)
    ensures CnameOnly(CounterAfter(n)) <==> n % 5 != 0
    ensures n > 0 ==> CounterAfter(n) == (n - 1) % 5
  {
    if n > 0 {
      EveryFifthIsFull(n - 1);
    }
  }

  /** What a report leaves of the streams' flags; a last report lets the receiving ones stand. */
  function Told(rx: seq<Rx>, lastReport: bool): (r: seq<Rx>)
    ensures |r| == |rx|
  {
    seq(|rx|, i requires 0 <= i < |rx| => if Reports(rx[i]) && !lastReport then rx[i].(received := false) else rx[i])
  }

  /** A stream reports once for what it has received, but a last report leaves it to be reported again. */
  lemma {:induction false} ReportedOnce(rx: seq<Rx>, lastReport: bool)
    ensures Blocks(Told(rx, lastReport)) == if lastReport then Blocks(rx) else []
    ensures forall i | 0 <= i < |rx| ::
              Told(rx, lastReport)[i].firstPkg == rx[i].firstPkg && Told(rx, lastReport)[i].block == rx[i].block
  {
    if rx != [] {
      var before := rx[..|rx| - 1];
      ReportedOnce(before, lastReport);
      assert Told(rx, lastReport)[..|rx| - 1] == Told(before, lastReport);
    }
  }

  class Session {
    const iPktRtcpSnd: RtpPackets.RtpPacket
    const iDefaultSSRC: u32
    const iLocalSdes: Items
    var tx: Option<Tx>
    var rx: seq<Rx>
    var iSendSdesCounter: nat

    /** The session allocates the packet itself, always in this size. */
    predicate Valid() { iPktRtcpSnd.iBuf.Length == KMaxRtcpPacketSize }

    constructor (default_: u32, items: Items, tx: Option<Tx>, rx: seq<Rx>)
      ensures Valid() && !iPktRtcpSnd.isOverrun && fresh(iPktRtcpSnd) && fresh(iPktRtcpSnd.iBuf)
      ensures iSendSdesCounter == KSDES_SEND_PACKET
      ensures this.tx == tx && this.rx == rx && iDefaultSSRC == default_ && iLocalSdes == items
    {
      iPktRtcpSnd := new RtpPackets.RtpPacket(KMaxRtcpPacketSize);
      iDefaultSSRC, iLocalSdes := default_, items;
      this.tx, this.rx := tx, rx;
      iSendSdesCounter := KSDES_SEND_PACKET;
    }

    method ShouldBuildEmptyRR() returns (empty: bool)
      ensures empty == Empty(tx, rx)
    {
      empty := true;
      if tx.Some? {
        if tx.value.sent {
          empty := false;
        }
      }
      for index := 0 to |rx|
        invariant empty == (!SendsSr(tx) && forall i | 0 <= i < index :: !rx[i].received)
      {
        if rx[index].received {
          empty := false;
        }
      }
    }

    method DetermineSourceCountAndLength(aLength: nat) returns (sourceCount: nat, length: nat)
      ensures sourceCount == |Blocks(rx)| && length == aLength + 6 * |Blocks(rx)|
    {
      sourceCount, length := 0, aLength;
      for k := 0 to |rx|
        invariant sourceCount == |Blocks(rx[..k])| && length == aLength + 6 * sourceCount
      {
        assert rx[..k + 1][..k] == rx[..k];
        if !rx[k].firstPkg && rx[k].received {
          sourceCount := sourceCount + 1;
          length := length + 6;
        }
      }
      assert rx[..|rx|] == rx;
    }

    method SetParamsForFullRTCPReport() returns (h: Header)
      requires !Empty(tx, rx)
      ensures h == ReportHeader(tx, rx, iDefaultSSRC)
    {
      var length, pt, ssrc := 1, ERTCP_RR, iDefaultSSRC;
      if tx.Some? {
        if tx.value.sent {
          length := length + 5;
          pt := ERTCP_SR;
        }
        ssrc := tx.value.report.ssrc;
      }
      var sourceCount: nat;
      sourceCount, length := DetermineSourceCountAndLength(length);
      h := Header(sourceCount, pt, length, ssrc);
    }

    /** The report blocks behind what is written already. */
    method BuildRrSection(lastReport: bool, ghost was: Buffer, ghost before: Bytes)
      requires iPktRtcpSnd.Written(was, 0, before) && iPktRtcpSnd.iDataPtr == |before|
      modifies this`rx, iPktRtcpSnd`iDataPtr, iPktRtcpSnd`isOverrun, iPktRtcpSnd.iBuf
      ensures rx == Told(old(rx), lastReport)
      ensures iPktRtcpSnd.Written(was, 0, before + WriteBlocks(old(Blocks(rx))))
      ensures iPktRtcpSnd.iDataPtr == |before + WriteBlocks(old(Blocks(rx)))|
    {
      hide PutAt, WriteRr, Blocks, WriteBlocks, Told, RtpPackets.RtpPacket.Written;
      ghost var all, told := rx, Told(rx, lastReport);
      NoBlocksYet(all, before);
      for k := 0 to |rx|
        invariant |rx| == |all| && forall i | 0 <= i < |rx| :: rx[i] == if i < k then told[i] else all[i]
        invariant iPktRtcpSnd.Written(was, 0, before + WriteBlocks(Blocks(all[..k])))
        invariant iPktRtcpSnd.iDataPtr == |before + WriteBlocks(Blocks(all[..k]))|
      {
        OneMore(all, k, before);
        OneTold(all, lastReport, k);
        if !rx[k].firstPkg && rx[k].received {
          PutBlock(rx[k].block, was, before + WriteBlocks(Blocks(all[..k])));
          if !lastReport {
            rx := rx[k := rx[k].(received := false)];
          }
        }
      }
      assert all[..|all|] == all;
    }

    method PutBlock(block: ReportBlock, ghost was: Buffer, ghost before: Bytes)
      requires iPktRtcpSnd.Written(was, 0, before) && iPktRtcpSnd.iDataPtr == |before|
      modifies iPktRtcpSnd`iDataPtr, iPktRtcpSnd`isOverrun, iPktRtcpSnd.iBuf
      ensures iPktRtcpSnd.Written(was, 0, before + WriteRr(block)) && iPktRtcpSnd.iDataPtr == |before| + 24
    {
      hide WriteRr;
      iPktRtcpSnd.BuildRr(block);
      PutTwice(was, 0, before, WriteRr(block));
    }

    /** The first section of a report into an empty packet. */
    method BuildReportSection(lastReport: bool)
      requires iPktRtcpSnd.iDataPtr == 0 && iPktRtcpSnd.iSize == 0
      modifies this`rx, this`tx, iPktRtcpSnd, iPktRtcpSnd.iBuf
      ensures var section := old(ReportSection(tx, rx, iDefaultSSRC));
              && iPktRtcpSnd.Written(old(iPktRtcpSnd.AsBuffer()), 0, section)
              && iPktRtcpSnd.iDataPtr == iPktRtcpSnd.iSize == |section|
      ensures rx == if old(Empty(tx, rx)) then old(rx) else Told(old(rx), lastReport)
      ensures tx == if old(SendsSr(tx)) then Some(old(tx).value.(sent := false)) else old(tx)
    {
      hide PutAt, WriteRr, WriteSr, WriteHeader, WriteBlocks, Blocks, Told, Empty, RtpPackets.RtpPacket.Written;
      ReportSectionAgrees(tx, rx, iDefaultSSRC);
      ghost var was := iPktRtcpSnd.AsBuffer();
      ghost var section, header := ReportSection(tx, rx, iDefaultSSRC), WriteHeader(ReportHeader(tx, rx, iDefaultSSRC));
      var empty := ShouldBuildEmptyRR();
      if empty {
        EmptySection(tx, rx, iDefaultSSRC);
        iPktRtcpSnd.BuildRtcp(Header(0, ERTCP_RR, 1, if tx.None? then iDefaultSSRC else tx.value.report.ssrc));
        return;
      }
      var h := SetParamsForFullRTCPReport();
      iPktRtcpSnd.BuildRtcp(h);
      ghost var before := header;
      if tx.Some? && tx.value.sent {
        PutSr(tx.value.report, was, header);
        before := header + WriteSr(tx.value.report);
        tx := Some(tx.value.(sent := false));
      } else {
        assert header == header + [];
      }
      assert section == before + WriteBlocks(Blocks(rx));
      BuildRrSection(lastReport, was, before);
    }

    method PutSr(report: SenderReport, ghost was: Buffer, ghost before: Bytes)
      requires iPktRtcpSnd.Written(was, 0, before) && iPktRtcpSnd.iDataPtr == |before|
      modifies iPktRtcpSnd`iDataPtr, iPktRtcpSnd`isOverrun, iPktRtcpSnd.iBuf
      ensures iPktRtcpSnd.Written(was, 0, before + WriteSr(report)) && iPktRtcpSnd.iDataPtr == |before| + 24
    {
      hide WriteSr;
      iPktRtcpSnd.BuildSr(report);
      PutTwice(was, 0, before, WriteSr(report));
    }

    /** How many items there are to send, and their octets. */
    method MeasureSdes(cnameOnly: bool) returns (sdesCount: nat, length: nat)
      ensures sdesCount == Count(Chosen(iLocalSdes, cnameOnly), 0)
      ensures length == Total(Chosen(iLocalSdes, cnameOnly), 0)
    {
      hide Count, Total;
      ghost var chosen := Chosen(iLocalSdes, cnameOnly);
      var end := if cnameOnly then 1 else ERTCP_NUM_OF_SDES_ITEMS;
      sdesCount, length := 0, 0;
      for theIndex := 0 to end
        invariant sdesCount + Count(chosen, theIndex) == Count(chosen, 0)
        invariant length + Total(chosen, theIndex) == Total(chosen, 0)
      {
        OneItem(chosen, theIndex);
        if iLocalSdes[theIndex] != [] {
          sdesCount := sdesCount + 1;
        }
        length := length + |iLocalSdes[theIndex]|;
      }
      NoItems(chosen, end);
    }

    method CreateSDES(cnameOnly: bool, ssrc: u32, ghost was: Buffer, ghost before: Bytes)
      requires Short(iLocalSdes) && iPktRtcpSnd.Written(was, 0, before) && iPktRtcpSnd.iDataPtr == |before|
      modifies iPktRtcpSnd, iPktRtcpSnd.iBuf
      ensures var section := SdesSection(Chosen(iLocalSdes, cnameOnly), ssrc);
              && iPktRtcpSnd.Written(was, 0, before + section)
              && iPktRtcpSnd.iDataPtr == |before + section| && iPktRtcpSnd.iSize == old(iPktRtcpSnd.iSize) + |section|
    {
      hide PutAt, Count, Total, WriteHeader, WriteSdes;
      var items := Chosen(iLocalSdes, cnameOnly);
      SdesSectionAgrees(items, ssrc);
      var sdesCount, length := MeasureSdes(cnameOnly);
      var octets, paddingSize := sdesCount * 2 + length + 1, 0;
      if octets % 4 == 0 {
        length := octets / 4 + 1;
      } else {
        paddingSize := 4 - octets % 4;
        length := octets / 4 + 1 + 1;
      }
      assert octets == SdesOctets(items) && paddingSize == Gap(octets);
      WordsWithGap(octets);
      assert Header(1, ERTCP_SDES, length, 0) == SdesHeader(items);
      PutSdes(items, length, paddingSize, ssrc, was, before);
    }

    method PutSdes(items: Items, length: nat, paddingSize: nat, ssrc: u32, ghost was: Buffer, ghost before: Bytes)
      requires Short(items) && iPktRtcpSnd.Written(was, 0, before) && iPktRtcpSnd.iDataPtr == |before|
      modifies iPktRtcpSnd, iPktRtcpSnd.iBuf
      ensures var section := WriteHeader(Header(1, ERTCP_SDES, length, 0)) + WriteSdes(Sdes(ssrc, items), paddingSize);
              && iPktRtcpSnd.Written(was, 0, before + section) && iPktRtcpSnd.iDataPtr == |before + section|
      ensures iPktRtcpSnd.iSize == old(iPktRtcpSnd.iSize) + (length + 1) * 4
    {
      hide PutAt, WriteHeader, WriteSdes, RtpPackets.RtpPacket.Written;
      var h, s := Header(1, ERTCP_SDES, length, 0), Sdes(ssrc, items);
      PutHeader(h, was, before);
      PutItems(s, paddingSize, was, before + WriteHeader(h));
      Associates(before, WriteHeader(h), WriteSdes(s, paddingSize));
    }

    method PutHeader(h: Header, ghost was: Buffer, ghost before: Bytes)
      requires iPktRtcpSnd.Written(was, 0, before) && iPktRtcpSnd.iDataPtr == |before|
      modifies iPktRtcpSnd, iPktRtcpSnd.iBuf
      ensures iPktRtcpSnd.Written(was, 0, before + WriteHeader(h)) && iPktRtcpSnd.iDataPtr == |before + WriteHeader(h)|
      ensures iPktRtcpSnd.iSize == old(iPktRtcpSnd.iSize) + (h.length + 1) * 4
    {
      hide WriteHeader;
      iPktRtcpSnd.BuildRtcp(h);
      PutTwice(was, 0, before, WriteHeader(h));
    }

    method PutItems(s: Sdes, paddingSize: nat, ghost was: Buffer, ghost before: Bytes)
      requires Short(s.items)
      requires iPktRtcpSnd.Written(was, 0, before) && iPktRtcpSnd.iDataPtr == |before|
      modifies iPktRtcpSnd`iDataPtr, iPktRtcpSnd`isOverrun, iPktRtcpSnd.iBuf
      ensures iPktRtcpSnd.Written(was, 0, before + WriteSdes(s, paddingSize))
      ensures iPktRtcpSnd.iDataPtr == |before + WriteSdes(s, paddingSize)|
    {
      hide WriteSdes;
      iPktRtcpSnd.BuildSdes(s, paddingSize);
      PutTwice(was, 0, before, WriteSdes(s, paddingSize));
    }

    /** BuildRtcpBYEPacket, behind a report. */
    method BuildBye(bye: Bye, ghost was: Buffer, ghost before: Bytes)
      requires |bye.reason| < 0x100
      requires iPktRtcpSnd.Written(was, 0, before) && iPktRtcpSnd.iDataPtr == iPktRtcpSnd.iSize == |before|
      modifies iPktRtcpSnd, iPktRtcpSnd.iBuf
      ensures var all := before + ByeSection(bye);
              iPktRtcpSnd.Written(was, 0, all) && iPktRtcpSnd.iDataPtr == iPktRtcpSnd.iSize == |all|
    {
      hide PutAt, WriteHeader, WriteBye, RtpPackets.RtpPacket.Written;
      var byeSize, paddingSize, length := |bye.reason|, 0, 0;
      if (1 + byeSize) % 4 == 0 {
        length := (1 + byeSize) / 4 + 1;
      } else {
        paddingSize := 4 - (1 + byeSize) % 4;
        length := (1 + byeSize) / 4 + 2;
      }
      assert paddingSize == Gap(1 + byeSize);
      ByeSectionAgrees(bye);
      var h := Header(1, ERTCP_BYE, length, 0);
      PutHeader(h, was, before);
      PutBye(bye, paddingSize, was, before + WriteHeader(h));
      Associates(before, WriteHeader(h), WriteBye(bye, paddingSize));
    }

    method PutBye(bye: Bye, paddingSize: nat, ghost was: Buffer, ghost before: Bytes)
      requires |bye.reason| < 0x100
      requires iPktRtcpSnd.Written(was, 0, before) && iPktRtcpSnd.iDataPtr == |before|
      modifies iPktRtcpSnd`iDataPtr, iPktRtcpSnd`isOverrun, iPktRtcpSnd.iBuf
      ensures iPktRtcpSnd.Written(was, 0, before + WriteBye(bye, paddingSize))
      ensures iPktRtcpSnd.iDataPtr == |before + WriteBye(bye, paddingSize)|
    {
      hide WriteBye;
      iPktRtcpSnd.BuildBye(bye, paddingSize);
      PutTwice(was, 0, before, WriteBye(bye, paddingSize));
    }

    /** BuildRtcpAPPPacket, behind a report: the size counts whole words of data only. */
    method BuildApp(app: App, subType: nat, ghost was: Buffer, ghost before: Bytes)
      requires |app.name| == 4
      requires iPktRtcpSnd.Written(was, 0, before) && iPktRtcpSnd.iDataPtr == iPktRtcpSnd.iSize == |before|
      modifies iPktRtcpSnd, iPktRtcpSnd.iBuf
      ensures var all := before + AppSection(app, subType);
              && iPktRtcpSnd.Written(was, 0, all) && iPktRtcpSnd.iDataPtr == |all|
              && (iPktRtcpSnd.iSize == |all| <==> |app.data| % 4 == 0)
    {
      hide PutAt, WriteHeader, WriteApp, RtpPackets.RtpPacket.Written;
      AppSectionAgrees(app);
      var h := Header(subType, ERTCP_APP, |app.data| / 4 + 3 - 1, 0);
      PutHeader(h, was, before);
      PutApp(app, was, before + WriteHeader(h));
      Associates(before, WriteHeader(h), WriteApp(app));
    }

    method PutApp(app: App, ghost was: Buffer, ghost before: Bytes)
      requires |app.name| == 4
      requires iPktRtcpSnd.Written(was, 0, before) && iPktRtcpSnd.iDataPtr == |before|
      modifies iPktRtcpSnd`iDataPtr, iPktRtcpSnd`isOverrun, iPktRtcpSnd.iBuf
      ensures iPktRtcpSnd.Written(was, 0, before + WriteApp(app)) && iPktRtcpSnd.iDataPtr == |before + WriteApp(app)|
    {
      hide WriteApp;
      iPktRtcpSnd.BuildApp(app);
      PutTwice(was, 0, before, WriteApp(app));
    }

    /** A transmission stream must have sent, or else a receiving one received, before reports begin. */
    predicate Started()
      reads this
    {
      if tx.Some? then !tx.value.firstPkg else exists i | 0 <= i < |rx| :: !rx[i].firstPkg
    }

    /**
     BuildRTCPReport.  Flags for 128 receiving streams are on the stack: more of them overrun it, which is
     the Panic.  The report itself is written without a look at the room in the packet.
     */
    method BuildRTCPReport(lastReport: bool) returns (r: Result<()>)
      requires Short(iLocalSdes)
      modifies this, iPktRtcpSnd, iPktRtcpSnd.iBuf
      ensures r == if old(|rx|) > KMaxNumActiveRcvStreams then Leave(Panic)
                   else if old(Started()) then Ok(()) else Leave(General)
      ensures r.Leave? ==>
                && tx == old(tx) && rx == old(rx) && iSendSdesCounter == old(iSendSdesCounter)
                && iPktRtcpSnd.AsBuffer() == old(iPktRtcpSnd.AsBuffer()) && iPktRtcpSnd.iSize == 0
      ensures r.Ok? ==>
                var cnameOnly := CnameOnly(old(iSendSdesCounter));
                var report := old(Compound(tx, rx, iDefaultSSRC, iLocalSdes, cnameOnly));
                && iPktRtcpSnd.Written(old(iPktRtcpSnd.AsBuffer()), 0, report)
                && iPktRtcpSnd.iDataPtr == iPktRtcpSnd.iSize == |report|
                && iSendSdesCounter == CountedReport(old(iSendSdesCounter))
                && rx == (if old(Empty(tx, rx)) then old(rx) else Told(old(rx), lastReport))
                && tx == (if old(SendsSr(tx)) then Some(old(tx).value.(sent := false)) else old(tx))
      ensures r.Ok? && Valid() && old(!iPktRtcpSnd.isOverrun) ==>
                var cnameOnly := CnameOnly(old(iSendSdesCounter));
                var report := old(Compound(tx, rx, iDefaultSSRC, iLocalSdes, cnameOnly));
                && (iPktRtcpSnd.AsBuffer().Intact? <==> old(ReportSize(tx, rx, iLocalSdes, cnameOnly)) <= KMaxRtcpPacketSize)
                && (iPktRtcpSnd.AsBuffer().Intact? ==>
                      |report| <= KMaxRtcpPacketSize && iPktRtcpSnd.iBuf[..|report|] == report)
    {
      hide ReportSection, SdesSection, Chosen, Told, Empty, SendsSr, PutAt, ReportSize;
      ghost var cnameOnly := iSendSdesCounter + 1 < KSDES_SEND_PACKET;
      if Valid() && !iPktRtcpSnd.isOverrun {
        ReportFits(iPktRtcpSnd.AsBuffer(), tx, rx, iDefaultSSRC, iLocalSdes, cnameOnly);
      }
      iPktRtcpSnd.Reset();
      if tx.None? && |rx| == 0 {
        return Leave(General);
      }
      if |rx| > KMaxNumActiveRcvStreams {
        return Leave(Panic);
      }
      var activeStreams := false;
      for k := 0 to |rx|
        invariant activeStreams <==> exists i | 0 <= i < k :: !rx[i].firstPkg
      {
        if !rx[k].firstPkg {
          activeStreams := true;
        }
      }
      if tx.Some? {
        if tx.value.firstPkg {
          return Leave(General);
        }
      } else if !activeStreams {
        return Leave(General);
      }
      ghost var was, section := iPktRtcpSnd.AsBuffer(), ReportSection(tx, rx, iDefaultSSRC);
      var ssrc := if tx.None? then iDefaultSSRC else tx.value.report.ssrc;
      BuildReportSection(lastReport);
      BuildSdesSection(ssrc, was, section);
      return Ok(());
    }

    /** SendRtcpByePacketL up to the sending, for a stream found: the BYE goes behind a report. */
    method BuildByePacket(reason: Bytes) returns (r: Result<()>)
      requires Valid() && tx.Some? && Short(iLocalSdes) && !iPktRtcpSnd.isOverrun
      modifies this, iPktRtcpSnd, iPktRtcpSnd.iBuf
      ensures r == if |reason| >= KMaxRtcpReason then Leave(TooBig)
                   else if old(|rx|) > KMaxNumActiveRcvStreams then Leave(Panic)
                   else if old(Started()) then Ok(()) else Leave(General)
      ensures r.Ok? ==>
                var cnameOnly := CnameOnly(old(iSendSdesCounter));
                var packet := old(Compound(tx, rx, iDefaultSSRC, iLocalSdes, cnameOnly))
                              + ByeSection(Bye(old(tx).value.report.ssrc, reason));
                && (iPktRtcpSnd.AsBuffer().Intact? <==>
                    old(ReportSize(tx, rx, iLocalSdes, cnameOnly)) + ByeSize(|reason|) <= KMaxRtcpPacketSize)
                && (iPktRtcpSnd.AsBuffer().Intact? ==>
                      |packet| <= KMaxRtcpPacketSize && iPktRtcpSnd.iBuf[..|packet|] == packet && iPktRtcpSnd.iSize == |packet|)
    {
      hide Compound, ByeSection, ReportSize, ByeSize, Told, Empty, SendsSr, PutAt;
      if |reason| >= KMaxRtcpReason {
        return Leave(TooBig);
      }
      ghost var was, cnameOnly := iPktRtcpSnd.AsBuffer(), iSendSdesCounter + 1 < KSDES_SEND_PACKET;
      ghost var report := Compound(tx, rx, iDefaultSSRC, iLocalSdes, cnameOnly);
      var bye := Bye(tx.value.report.ssrc, reason);
      CompoundSize(tx, rx, iDefaultSSRC, iLocalSdes, cnameOnly);
      ByeSectionSize(bye);
      r := BuildRTCPReport(false);
      if r.Leave? {
        return;
      }
      BuildBye(bye, was, report);
      WholeOrNot(was, report + ByeSection(bye));
    }

    /** SendRtcpAppPacketL likewise. */
    method BuildAppPacket(app: App, subType: nat) returns (r: Result<()>)
      requires Valid() && tx.Some? && Short(iLocalSdes) && !iPktRtcpSnd.isOverrun && |app.name| == 4
      modifies this, iPktRtcpSnd, iPktRtcpSnd.iBuf
      ensures r == if |app.data| >= KMaxRtcpAppData then Leave(TooBig)
                   else if old(|rx|) > KMaxNumActiveRcvStreams then Leave(Panic)
                   else if old(Started()) then Ok(()) else Leave(General)
      ensures r.Ok? ==>
                var cnameOnly := CnameOnly(old(iSendSdesCounter));
                var packet := old(Compound(tx, rx, iDefaultSSRC, iLocalSdes, cnameOnly)) + AppSection(app, subType);
                && (iPktRtcpSnd.AsBuffer().Intact? <==>
                    old(ReportSize(tx, rx, iLocalSdes, cnameOnly)) + 12 + |app.data| <= KMaxRtcpPacketSize)
                && (iPktRtcpSnd.AsBuffer().Intact? ==>
                      && |packet| <= KMaxRtcpPacketSize && iPktRtcpSnd.iBuf[..|packet|] == packet
                      && (iPktRtcpSnd.iSize == |packet| <==> |app.data| % 4 == 0))
    {
      hide Compound, AppSection, ReportSize, Told, Empty, SendsSr, PutAt;
      if |app.data| >= KMaxRtcpAppData {
        return Leave(TooBig);
      }
      ghost var was, cnameOnly := iPktRtcpSnd.AsBuffer(), iSendSdesCounter + 1 < KSDES_SEND_PACKET;
      ghost var report := Compound(tx, rx, iDefaultSSRC, iLocalSdes, cnameOnly);
      CompoundSize(tx, rx, iDefaultSSRC, iLocalSdes, cnameOnly);
      AppSectionSize(app, subType);
      r := BuildRTCPReport(false);
      if r.Leave? {
        return;
      }
      BuildApp(app, subType, was, report);
      WholeOrNot(was, report + AppSection(app, subType));
    }

    method BuildSdesSection(ssrc: u32, ghost was: Buffer, ghost before: Bytes)
      requires Short(iLocalSdes) && iPktRtcpSnd.Written(was, 0, before) && iPktRtcpSnd.iDataPtr == |before|
      modifies this`iSendSdesCounter, iPktRtcpSnd, iPktRtcpSnd.iBuf
      ensures var cnameOnly := CnameOnly(old(iSendSdesCounter));
              var section := SdesSection(Chosen(iLocalSdes, cnameOnly), ssrc);
              && iPktRtcpSnd.Written(was, 0, before + section)
              && iPktRtcpSnd.iDataPtr == |before + section| && iPktRtcpSnd.iSize == old(iPktRtcpSnd.iSize) + |section|
              && iSendSdesCounter == CountedReport(old(iSendSdesCounter))
    {
      hide SdesSection, Chosen, PutAt;
      iSendSdesCounter := iSendSdesCounter + 1;
      if iSendSdesCounter >= KSDES_SEND_PACKET {
        iSendSdesCounter := 0;
        CreateSDES(false, ssrc, was, before);
      } else {
        CreateSDES(true, ssrc, was, before);
      }
    }
  }

  lemma Associates(a: Bytes, b: Bytes, c: Bytes)
    ensures a + b + c == a + (b + c)
  {
  }

  lemma EmptySection(tx: Option<Tx>, rx: seq<Rx>, default_: u32)
    requires Empty(tx, rx)
    ensures ReportSection(tx, rx, default_) == WriteHeader(Header(0, ERTCP_RR, 1, Ssrc(tx, default_)))
  {
    hide WriteHeader;
    var header := WriteHeader(Header(0, ERTCP_RR, 1, Ssrc(tx, default_)));
    assert header + [] + [] == header;
  }

  lemma OneItem(items: Items, i: nat)
    requires i < 8
    ensures Count(items, i) == (if items[i] == [] then 0 else 1) + Count(items, i + 1)
    ensures Total(items, i) == |items[i]| + Total(items, i + 1)
  {
  }

  lemma {:induction false} NoItems(items: Items, i: nat)
    requires i <= 8 && forall k | i <= k < 8 :: items[k] == []
    ensures Count(items, i) == 0 && Total(items, i) == 0
    decreases 8 - i
  {
    if i < 8 {
      NoItems(items, i + 1);
    }
  }

  lemma WordsWithGap(n: nat)
    ensures (n + Gap(n)) / 4 == if n % 4 == 0 then n / 4 else n / 4 + 1
  {
  }

  lemma NoBlocksYet(rx: seq<Rx>, before: Bytes)
    ensures Blocks(rx[..0]) == [] && before + WriteBlocks([]) == before
  {
  }

  lemma OneMore(rx: seq<Rx>, k: nat, before: Bytes)
    requires k < |rx|
    ensures before + WriteBlocks(Blocks(rx[..k + 1])) ==
            if Reports(rx[k]) then before + WriteBlocks(Blocks(rx[..k])) + WriteRr(rx[k].block)
            else before + WriteBlocks(Blocks(rx[..k]))
  {
    hide WriteBlocks, WriteRr;
    var blocks := Blocks(rx[..k]);
    assert rx[..k + 1][..k] == rx[..k];
    assert Blocks(rx[..k + 1]) == blocks + if Reports(rx[k]) then [rx[k].block] else [];
    assert blocks + [] == blocks;
    BehindBlocks(before, blocks, rx[k].block);
  }

  lemma OneTold(rx: seq<Rx>, lastReport: bool, k: nat)
    requires k < |rx|
    ensures Told(rx, lastReport)[k] == if Reports(rx[k]) && !lastReport then rx[k].(received := false) else rx[k]
  {
  }

  lemma BehindBlocks(before: Bytes, blocks: seq<ReportBlock>, block: ReportBlock)
    ensures before + WriteBlocks(blocks + [block]) == before + WriteBlocks(blocks) + WriteRr(block)
  {
    hide WriteRr;
    assert (blocks + [block])[..|blocks|] == blocks;
  }
}
