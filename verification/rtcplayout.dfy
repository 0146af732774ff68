/**
 The layout of RTCP sections (rtppacket.cpp, sections 6.4 to 6.7 of RFC 3550), written and read at
 a cursor in one buffer.
 */
module RtcpLayout {
  import opened Outcomes
  import opened Machine
  import opened Octets
  import opened Reception
  import opened TranStream

  const ERTCP_SR := 200
  const ERTCP_RR := 201
  const ERTCP_SDES := 202
  const ERTCP_BYE := 203
  const ERTCP_APP := 204
  const ERTCP_NUM_OF_SDES_ITEMS := 8

  /** What was read, and where reading goes on.  Leave(Panic) stands for reading outside the buffer,
      which the code does not guard against. */
  datatype Read<T> = Read(value: T, at: nat)

  // ----- The section header -----

  datatype Header = Header(sourceCount: nat, pt: u8, length: nat, ssrc: u32)

  /** The count is put into the version octet with a bitwise or; only below 32 does it stay in its five bits. */
  function CountOctet(count: nat): Octet {
    if count % 0x100 < 0x80 then 0x80 + count % 0x100 else count % 0x100
  }

  function WriteHeader(h: Header): (r: Bytes)
    ensures |r| == if h.pt == ERTCP_RR then 8 else 4
  {
    [CountOctet(h.sourceCount), h.pt] + Write16(h.length % 0x1_0000) + if h.pt == ERTCP_RR then Write32(h.ssrc) else []
  }

  /** iSize after the header: the padding bit takes the last octet for a padding count. */
  function SizeAfterHeader(b: Bytes, at: nat, size: nat): int
    requires at < |b| && size <= |b|
  {
    if size > 0 && b[at] / 0x40 == 2 && b[at] / 0x20 % 2 == 1 then size - b[size - 1] else size
  }

  function ReadHeader(b: Bytes, at: nat, size: nat): Result<Read<Header>>
    requires size <= |b|
  {
    if at + 4 > |b| then Leave(Panic)
    else if b[at] / 0x40 != 2 then Leave(Corrupt)
    else if size == 0 && b[at] / 0x20 % 2 == 1 then Leave(Panic)
    else if !(ERTCP_SR <= b[at + 1] <= ERTCP_APP) then Leave(Corrupt)
    else if Read16(b, at + 2) as int * 4 > SizeAfterHeader(b, at, size) then Leave(Corrupt)
    else if b[at + 1] != ERTCP_RR then Ok(Read(Header(b[at] % 0x20, b[at + 1], Read16(b, at + 2), 0), at + 4))
    else if at + 8 > |b| then Leave(Panic)
    else Ok(Read(Header(b[at] % 0x20, b[at + 1], Read16(b, at + 2), Read32(b, at + 4)), at + 8))
  }

  // ----- Report blocks -----

  function WriteRr(r: ReportBlock): (o: Bytes)
    ensures |o| == 24
  {
    Write32(r.ssrc) + [r.fractionLost] + Write24(r.cumNumPacketsLost) + Write32(r.seqNumReceived)
    + Write32(r.arrivalJitter) + Write32(r.lastSR) + Write32(r.delaySinceLSR)
  }

  function ReadRr(b: Bytes, at: nat): Result<Read<ReportBlock>> {
    if at + 24 > |b| then Leave(Panic)
    else
      Ok(Read(ReportBlock(
        Read32(b, at), b[at + 4], Read24(b, at + 5), Read32(b, at + 8),
        Read32(b, at + 12), Read32(b, at + 16), Read32(b, at + 20)), at + 24))
  }

  function WriteSr(r: SenderReport): (o: Bytes)
    ensures |o| == 24
  {
    Write32(r.ssrc) + Write32(r.ntpSec) + Write32(r.ntpFrac) + Write32(r.timeStamp)
    + Write32(r.numPacketsSent) + Write32(r.cumNumOctetsSent)
  }

  function ReadSr(b: Bytes, at: nat): Result<Read<SenderReport>> {
    if at + 24 > |b| then Leave(Panic)
    else
      Ok(Read(SenderReport(
        Read32(b, at), Read32(b, at + 4), Read32(b, at + 8), Read32(b, at + 12),
        Read32(b, at + 16), Read32(b, at + 20)), at + 24))
  }

  // ----- BYE and APP -----

  /** Octets up to the next word boundary. */
  function Gap(octets: nat): nat { if octets % 4 == 0 then 0 else 4 - octets % 4 }

  datatype Bye = Bye(ssrc: u32, reason: Bytes)

  function WriteBye(bye: Bye, padding: nat): (o: Bytes)
    requires |bye.reason| < 0x100
    ensures |o| == 5 + |bye.reason| + padding
  {
    Write32(bye.ssrc) + [|bye.reason|] + bye.reason + Zeros(padding)
  }

  function ReadBye(b: Bytes, at: nat): Result<Read<Bye>> {
    if at + 5 > |b| || at + 5 + b[at + 4] > |b| then Leave(Panic)
    else Ok(Read(Bye(Read32(b, at), b[at + 5..at + 5 + b[at + 4]]), at + 5 + b[at + 4] + Gap(1 + b[at + 4] as int)))
  }

  datatype App = App(ssrc: u32, name: Bytes, data: Bytes)

  function WriteApp(app: App): (o: Bytes)
    requires |app.name| == 4
    ensures |o| == 8 + |app.data|
  {
    Write32(app.ssrc) + app.name + app.data
  }

  /** length is the header's length field; a section too short for an SSRC and a name is refused. */
  function ReadApp(b: Bytes, at: nat, length: u16): Result<Read<App>> {
    var octets: int := (length - 2) * 4;
    if length < 2 then Leave(Corrupt)
    else if at + 8 + octets > |b| then Leave(Panic)
    else Ok(Read(App(Read32(b, at), b[at + 4..at + 8], b[at + 8..at + 8 + octets]), at + 8 + octets))
  }

  // ----- SDES -----

  /** The eight items of a source, CNAME first; an empty one is not sent. */
  type Items = items: seq<Bytes> | |items| == ERTCP_NUM_OF_SDES_ITEMS witness [[], [], [], [], [], [], [], []]

  predicate Short(items: Items) { forall i | 0 <= i < 8 :: |items[i]| < 0x100 }

  datatype Sdes = Sdes(ssrc: u32, items: Items)

  /** The octets of items i to 7. */
  function WriteItems(items: Items, i: nat): Bytes
    requires i <= 8 && Short(items)
    decreases 8 - i
  {
    if i == 8 then []
    else (if items[i] == [] then [] else [i + 1, |items[i]|] + items[i]) + WriteItems(items, i + 1)
  }

  function WriteSdes(s: Sdes, padding: nat): (o: Bytes)
    requires Short(s.items)
    ensures |o| == 5 + |WriteItems(s.items, 0)| + padding
  {
    Write32(s.ssrc) + WriteItems(s.items, 0) + [0] + Zeros(padding)
  }

  /** Items i to 7 as read, how many of them had a header of their own, and the last octet other
      than 0 looked at for one. */
  datatype SomeItems = SomeItems(items: seq<Bytes>, headers: nat, octets: nat, last: u8)

  /** Item i at a position, if it is the one that is there. */
  function ItemIn(b: Bytes, at: nat, i: nat): Result<Option<Bytes>> {
    if at >= |b| then Leave(Panic)
    else if b[at] == 0 || b[at] != i + 1 then Ok(None)
    else if at + 2 > |b| || at + 2 + b[at + 1] > |b| then Leave(Panic)
    else Ok(Some(b[at + 2..at + 2 + b[at + 1]]))
  }

  /** Items read before the others. */
  function Joined(items: seq<Bytes>, headers: nat, octets: nat, rest: Result<Read<SomeItems>>): (r: Result<Read<SomeItems>>)
    ensures r.Ok? <==> rest.Ok?
    ensures r.Ok? ==> |r.value.value.items| == |items| + |rest.value.value.items| && r.value.at == rest.value.at
  {
    match rest
    case Leave(e) => Leave(e)
    case Ok(Read(r, next)) => Ok(Read(SomeItems(items + r.items, headers + r.headers, octets + r.octets, r.last), next))
  }

  function ReadItems(b: Bytes, at: nat, i: nat, last: u8): (r: Result<Read<SomeItems>>)
    requires i <= 8
    ensures r.Ok? ==> |r.value.value.items| == 8 - i && at <= r.value.at
    decreases 8 - i
  {
    if i == 8 then Ok(Read(SomeItems([], 0, 0, last), at))
    else
      match ItemIn(b, at, i)
      case Leave(e) => Leave(e)
      case Ok(None) => Joined([[]], 0, 0, ReadItems(b, at, i + 1, if b[at] == 0 then last else b[at]))
      case Ok(Some(item)) => Joined([item], 1, |item|, ReadItems(b, at + 2 + |item|, i + 1, i + 1))
  }

  /** From index last on, the items are emptied again. */
  function Emptied(items: Items, last: nat): Items {
    seq(8, i requires 0 <= i < 8 => if i < last then items[i] else [])
  }

  function ReadSdes(b: Bytes, at: nat): (r: Result<Read<Sdes>>)
    ensures r.Ok? ==> at + 5 <= r.value.at
  {
    if at + 4 > |b| then Leave(Panic)
    else
      match ReadItems(b, at + 4, 0, 0)
      case Leave(e) => Leave(e)
      case Ok(Read(all, next)) =>
        Ok(Read(Sdes(Read32(b, at), Emptied(all.items, all.last)), next + 1 + Gap(2 * all.headers + all.octets + 1)))
  }

  // ----- Round trips -----

  lemma HeaderReads(before: Bytes, h: Header, after: Bytes, size: nat)
    requires h.sourceCount < 32 && ERTCP_SR <= h.pt <= ERTCP_APP && h.length < 0x1_0000
    requires 0 < size <= |before + WriteHeader(h) + after|
    ensures var b := before + WriteHeader(h) + after;
            && SizeAfterHeader(b, |before|, size) == size
            && ReadHeader(b, |before|, size) ==
               if h.length * 4 > size then Leave(Corrupt)
               else Ok(Read(if h.pt == ERTCP_RR then h else h.(ssrc := 0), |before| + |WriteHeader(h)|))
  {
    hide Write16, Write32, Read16, Read32, CountOctet;
    CountOctetBits(h.sourceCount);
    var b := before + WriteHeader(h) + after;
    var first: Bytes, length := [CountOctet(h.sourceCount), h.pt], Write16(h.length);
    var ssrc := if h.pt == ERTCP_RR then Write32(h.ssrc) else [];
    assert b == (before + first) + length + (ssrc + after);
    Read16Write16(before + first, h.length, ssrc + after);
    assert b[|before|] == first[0] && b[|before| + 1] == first[1];
    if h.pt == ERTCP_RR {
      assert b == (before + first + length) + Write32(h.ssrc) + after;
      Read32Write32(before + first + length, h.ssrc, after);
    }
  }

  /** From 32 sources on, the count that comes back, if any, is wrong: it spills into the padding and
      version bits. */
  lemma CountNeedsFiveBits(before: Bytes, h: Header, after: Bytes, size: nat)
    requires ERTCP_SR <= h.pt <= ERTCP_APP && h.length < 0x1_0000
    requires 0 < size <= |before + WriteHeader(h) + after| && h.length * 4 <= size
    ensures var r := ReadHeader(before + WriteHeader(h) + after, |before|, size);
            (r.Ok? && r.value.value.sourceCount == h.sourceCount) <==> h.sourceCount < 32
  {
    hide Write16, Write32, Read16, Read32;
    var b := before + WriteHeader(h) + after;
    assert b[|before|] == CountOctet(h.sourceCount);
    CountOctetBits(h.sourceCount);
    if h.sourceCount < 32 {
      HeaderReads(before, h, after, size);
    }
  }

  /** Six words in a row. */
  lemma SixWordsRead(before: Bytes, w: seq<u32>, after: Bytes)
    requires |w| == 6
    ensures var b := before + (Write32(w[0]) + Write32(w[1]) + Write32(w[2]) + Write32(w[3]) + Write32(w[4]) + Write32(w[5])) + after;
            forall k | 0 <= k < 6 :: Read32(b, |before| + 4 * k) == w[k]
  {
    hide Write32, Read32;
    var o0, o1, o2, o3, o4, o5 := Write32(w[0]), Write32(w[1]), Write32(w[2]), Write32(w[3]), Write32(w[4]), Write32(w[5]);
    var b := before + (o0 + o1 + o2 + o3 + o4 + o5) + after;
    assert b == before + o0 + (o1 + o2 + o3 + o4 + o5 + after);
    Read32Write32(before, w[0], o1 + o2 + o3 + o4 + o5 + after);
    assert b == (before + o0) + o1 + (o2 + o3 + o4 + o5 + after);
    Read32Write32(before + o0, w[1], o2 + o3 + o4 + o5 + after);
    assert b == (before + o0 + o1) + o2 + (o3 + o4 + o5 + after);
    Read32Write32(before + o0 + o1, w[2], o3 + o4 + o5 + after);
    assert b == (before + o0 + o1 + o2) + o3 + (o4 + o5 + after);
    Read32Write32(before + o0 + o1 + o2, w[3], o4 + o5 + after);
    assert b == (before + o0 + o1 + o2 + o3) + o4 + (o5 + after);
    Read32Write32(before + o0 + o1 + o2 + o3, w[4], o5 + after);
    assert b == (before + o0 + o1 + o2 + o3 + o4) + o5 + after;
    Read32Write32(before + o0 + o1 + o2 + o3 + o4, w[5], after);
  }

  lemma SrRoundTrip(before: Bytes, r: SenderReport, after: Bytes)
    ensures ReadSr(before + WriteSr(r) + after, |before|) == Ok(Read(r, |before| + |WriteSr(r)|))
  {
    hide Write32, Read32;
    var w := [r.ssrc, r.ntpSec, r.ntpFrac, r.timeStamp, r.numPacketsSent, r.cumNumOctetsSent];
    SixWordsRead(before, w, after);
    assert forall k | 0 <= k < 6 :: Read32(before + WriteSr(r) + after, |before| + 4 * k) == w[k];
    assert |before| + 4 * 0 == |before|;
    var b, n := before + WriteSr(r) + after, |before|;
    assert Read32(b, n + 4 * 1) == w[1] && Read32(b, n + 4 * 2) == w[2] && Read32(b, n + 4 * 3) == w[3];
    assert Read32(b, n + 4 * 4) == w[4] && Read32(b, n + 4 * 5) == w[5] && Read32(b, n + 4 * 0) == w[0];
  }

  /** A report block comes back with the low 24 bits of its loss count. */
  lemma RrRoundTrip(before: Bytes, r: ReportBlock, after: Bytes)
    ensures ReadRr(before + WriteRr(r) + after, |before|)
            == Ok(Read(r.(cumNumPacketsLost := r.cumNumPacketsLost % 0x100_0000), |before| + |WriteRr(r)|))
  {
    hide Write32, Write24, Read32, Read24;
    var o0, o1, o2, o3, o4, o5, o6 := Write32(r.ssrc), [r.fractionLost], Write24(r.cumNumPacketsLost),
      Write32(r.seqNumReceived), Write32(r.arrivalJitter), Write32(r.lastSR), Write32(r.delaySinceLSR);
    var b := before + WriteRr(r) + after;
    assert b == before + o0 + (o1 + o2 + o3 + o4 + o5 + o6 + after);
    Read32Write32(before, r.ssrc, o1 + o2 + o3 + o4 + o5 + o6 + after);
    assert b == (before + o0 + o1) + o2 + (o3 + o4 + o5 + o6 + after);
    assert b[|before| + 4] == o1[0];
    Read24Write24(before + o0 + o1, r.cumNumPacketsLost, o3 + o4 + o5 + o6 + after);
    assert b == (before + o0 + o1 + o2) + o3 + (o4 + o5 + o6 + after);
    Read32Write32(before + o0 + o1 + o2, r.seqNumReceived, o4 + o5 + o6 + after);
    assert b == (before + o0 + o1 + o2 + o3) + o4 + (o5 + o6 + after);
    Read32Write32(before + o0 + o1 + o2 + o3, r.arrivalJitter, o5 + o6 + after);
    assert b == (before + o0 + o1 + o2 + o3 + o4) + o5 + (o6 + after);
    Read32Write32(before + o0 + o1 + o2 + o3 + o4, r.lastSR, o6 + after);
    assert b == (before + o0 + o1 + o2 + o3 + o4 + o5) + o6 + after;
    Read32Write32(before + o0 + o1 + o2 + o3 + o4 + o5, r.delaySinceLSR, after);
  }

  /** A BYE comes back whole, and the cursor stops at its end, exactly if it was padded to a word. */
  lemma ByeRoundTrip(before: Bytes, bye: Bye, padding: nat, after: Bytes)
    requires |bye.reason| < 0x100
    ensures ReadBye(before + WriteBye(bye, padding) + after, |before|)
            == Ok(Read(bye, |before| + |WriteBye(bye, padding)| - padding + Gap(1 + |bye.reason|)))
  {
    hide Write32, Read32, Gap;
    var n, size := |before|, |bye.reason|;
    var ssrc, length, rest := Write32(bye.ssrc), [size], Zeros(padding) + after;
    var b := before + WriteBye(bye, padding) + after;
    assert b == before + ssrc + (length + bye.reason + rest);
    Read32Write32(before, bye.ssrc, length + bye.reason + rest);
    assert b[n + 4] == size;
    assert b == (before + ssrc + length) + bye.reason + rest;
    assert b[n + 5..n + 5 + size] == bye.reason;
  }

  /** An APP section with the length field the builder gives it comes back whole, with the cursor at
      its end, exactly if its data is a whole number of words; otherwise the last octets are lost. */
  lemma AppRoundTrip(before: Bytes, app: App, after: Bytes)
    requires |app.name| == 4 && |app.data| / 4 + 2 < 0x1_0000
    ensures var words := |app.data| / 4;
            ReadApp(before + WriteApp(app) + after, |before|, words + 2)
            == Ok(Read(app.(data := app.data[..4 * words]), |before| + 8 + 4 * words))
    ensures app.data[..4 * (|app.data| / 4)] == app.data <==> |app.data| % 4 == 0
  {
    hide Write32, Read32;
    var n := |before|;
    var ssrc, octets := Write32(app.ssrc), 4 * (|app.data| / 4);
    var b := before + WriteApp(app) + after;
    assert b == before + ssrc + (app.name + app.data + after);
    Read32Write32(before, app.ssrc, app.name + app.data + after);
    assert b[n + 4..n + 8] == app.name;
    assert b[n + 8..n + 8 + octets] == app.data[..octets];
  }

  /** How many items from i on are not empty, their octets together, and the type of the last one. */
  function Count(items: Items, i: nat): nat
    requires i <= 8
    decreases 8 - i
  {
    if i == 8 then 0 else (if items[i] == [] then 0 else 1) + Count(items, i + 1)
  }

  function Total(items: Items, i: nat): nat
    requires i <= 8
    decreases 8 - i
  {
    if i == 8 then 0 else |items[i]| + Total(items, i + 1)
  }

  function LastType(items: Items, i: nat, last: u8): u8
    requires i <= 8
    decreases 8 - i
  {
    if i == 8 then last else LastType(items, i + 1, if items[i] == [] then last else i + 1)
  }

  lemma {:induction false} ItemsSize(items: Items, i: nat)
    requires i <= 8 && Short(items)
    ensures |WriteItems(items, i)| == 2 * Count(items, i) + Total(items, i)
    decreases 8 - i
  {
    if i < 8 {
      ItemsSize(items, i + 1);
    }
  }

  /** The octets x stand at a position of a buffer. */
  predicate At(b: Bytes, at: nat, x: Bytes) { at + |x| <= |b| && b[at..at + |x|] == x }

  /** Type, length and octets of item i. */
  predicate ItemAt(b: Bytes, at: nat, i: nat, item: Bytes) {
    at + 2 <= |b| && b[at] == i + 1 && b[at + 1] == |item| && At(b, at + 2, item)
  }

  lemma StandsAt(before: Bytes, x: Bytes, after: Bytes)
    ensures At(before + x + after, |before|, x)
  {
  }

  lemma AtSplit(b: Bytes, at: nat, x: Bytes, y: Bytes)
    requires At(b, at, x + y)
    ensures At(b, at, x) && At(b, at + |x|, y)
  {
    assert b[at..at + |x|] == (x + y)[..|x|];
    assert b[at + |x|..at + |x| + |y|] == (x + y)[|x|..];
  }

  /** What follows in front of item i: nothing, or a later item's type. */
  lemma {:induction false} NextOctet(items: Items, i: nat, l: u8, m: u8)
    requires i <= 8 && Short(items)
    ensures var o := (WriteItems(items, i) + [0])[0];
            && (o == 0 || (i < o <= 8 && LastType(items, i, l) == LastType(items, i, m)))
            && (o == 0 ==> LastType(items, i, l) == l)
    decreases 8 - i
  {
    if i < 8 {
      NextOctet(items, i + 1, l, m);
    }
  }

  lemma HeaderAt(b: Bytes, at: nat, kind: Octet, size: Octet)
    requires At(b, at, [kind, size])
    ensures at + 2 <= |b| && b[at] == kind && b[at + 1] == size
  {
    assert b[at] == b[at..at + 2][0] && b[at + 1] == b[at..at + 2][1];
  }

  lemma ItemIsIn(b: Bytes, at: nat, i: nat, item: Bytes)
    requires i < 8 && |item| < 0x100 && ItemAt(b, at, i, item)
    ensures ItemIn(b, at, i) == Ok(Some(item))
  {
  }

  /** One step of reading items, for an absent and for a present item. */
  lemma SkipItem(b: Bytes, at: nat, i: nat, last: u8, rest: SomeItems, next: nat)
    requires i < 8 && at < |b| && b[at] != i + 1
    requires ReadItems(b, at, i + 1, if b[at] == 0 then last else b[at]) == Ok(Read(rest, next))
    ensures ReadItems(b, at, i, last) == Ok(Read(rest.(items := [[]] + rest.items), next))
  {
  }

  lemma NoItemThere(b: Bytes, at: nat, i: nat)
    ensures ItemIn(b, at, i) == Ok(None) ==> at < |b|
  {
  }

  lemma FirstFailure(b: Bytes, at: nat, i: nat, last: u8)
    requires i < 8 && ItemIn(b, at, i).Leave?
    ensures ReadItems(b, at, i, last) == Leave(ItemIn(b, at, i).error)
  {
    hide ItemIn;
  }

  lemma FirstAbsent(b: Bytes, at: nat, i: nat, last: u8)
    requires i < 8 && ItemIn(b, at, i) == Ok(None)
    ensures at < |b|
    ensures ReadItems(b, at, i, last) == Joined([[]], 0, 0, ReadItems(b, at, i + 1, if b[at] == 0 then last else b[at]))
  {
    NoItemThere(b, at, i);
    hide ItemIn, Joined;
  }

  lemma FirstPresent(b: Bytes, at: nat, i: nat, last: u8, item: Bytes)
    requires i < 8 && ItemIn(b, at, i) == Ok(Some(item))
    ensures ReadItems(b, at, i, last) == Joined([item], 1, |item|, ReadItems(b, at + 2 + |item|, i + 1, i + 1))
  {
    hide ItemIn, Joined;
  }

  lemma TakeItem(b: Bytes, at: nat, i: nat, last: u8, item: Bytes, rest: SomeItems, next: nat)
    requires i < 8 && |item| < 0x100 && ItemAt(b, at, i, item)
    requires ReadItems(b, at + 2 + |item|, i + 1, i + 1) == Ok(Read(rest, next))
    ensures ReadItems(b, at, i, last) == Ok(Read(InFront(item, rest), next))
  {
    ItemIsIn(b, at, i, item);
    FirstPresent(b, at, i, last, item);
    JoinedToRead(item, rest, next);
    hide *;
  }

  /** An item before the others. */
  function InFront(item: Bytes, rest: SomeItems): SomeItems {
    SomeItems([item] + rest.items, rest.headers + 1, rest.octets + |item|, rest.last)
  }

  lemma JoinedToRead(item: Bytes, rest: SomeItems, next: nat)
    ensures Joined([item], 1, |item|, Ok(Read(rest, next))) == Ok(Read(InFront(item, rest), next))
  {
  }

  lemma UnfoldItems(items: Items, i: nat, last: u8)
    requires i < 8 && Short(items)
    ensures items[i..] == [items[i]] + items[i + 1..]
    ensures Count(items, i) == (if items[i] == [] then 0 else 1) + Count(items, i + 1)
    ensures Total(items, i) == |items[i]| + Total(items, i + 1)
    ensures LastType(items, i, last) == LastType(items, i + 1, if items[i] == [] then last else i + 1)
    ensures items[i] == [] ==> WriteItems(items, i) == WriteItems(items, i + 1)
    ensures items[i] != [] ==>
              WriteItems(items, i) + [0] == [i + 1, |items[i]|] + (items[i] + (WriteItems(items, i + 1) + [0]))
    ensures items[i] != [] ==> |WriteItems(items, i)| == 2 + |items[i]| + |WriteItems(items, i + 1)|
  {
  }

  lemma FirstAt(b: Bytes, at: nat, x: Bytes)
    requires x != [] && At(b, at, x)
    ensures at < |b| && b[at] == x[0]
  {
    assert b[at] == b[at..at + |x|][0];
  }

  lemma CountOctetBits(count: nat)
    ensures var o := CountOctet(count);
            count < 0x20 ==> o / 0x40 == 2 && o / 0x20 % 2 == 0 && o % 0x20 == count
    ensures count >= 0x20 ==> CountOctet(count) % 0x20 != count
  {
  }

  lemma ShortItem(items: Items, i: nat)
    requires i < 8 && Short(items)
    ensures |items[i]| < 0x100
  {
  }

  /** The items from i on, as they come back. */
  function Rest(items: Items, i: nat, last: u8): SomeItems
    requires i <= 8
  {
    SomeItems(items[i..], Count(items, i), Total(items, i), LastType(items, i, last))
  }

  /** Items i to 7 come back from a position of a buffer. */
  ghost predicate ReadBack(b: Bytes, at: nat, items: Items, i: nat, last: u8)
    requires i <= 8 && Short(items)
  {
    ReadItems(b, at, i, last) == Ok(Read(Rest(items, i, last), at + |WriteItems(items, i)|))
  }

  lemma AbsentReadBack(b: Bytes, at: nat, items: Items, i: nat, last: u8)
    requires i < 8 && Short(items) && items[i] == [] && At(b, at, WriteItems(items, i + 1) + [0])
    requires at < |b| && ReadBack(b, at, items, i + 1, if b[at] == 0 then last else b[at])
    ensures ReadBack(b, at, items, i, last)
  {
    hide At, Short, ReadItems, WriteItems, Count, Total, LastType;
    var last' := if b[at] == 0 then last else b[at];
    var rest := WriteItems(items, i + 1);
    UnfoldItems(items, i, last);
    FirstAt(b, at, rest + [0]);
    NextOctet(items, i + 1, b[at], last);
    SkipItem(b, at, i, last, Rest(items, i + 1, last'), at + |rest|);
  }

  lemma RestUnfolds(items: Items, i: nat, last: u8)
    requires i < 8 && Short(items) && items[i] != []
    ensures Rest(items, i, last) == InFront(items[i], Rest(items, i + 1, i + 1))
    ensures |WriteItems(items, i)| == 2 + |items[i]| + |WriteItems(items, i + 1)|
  {
    UnfoldItems(items, i, last);
    hide Short, WriteItems, Count, Total, LastType;
  }

  lemma PresentReadBack(b: Bytes, at: nat, items: Items, i: nat, last: u8)
    requires i < 8 && Short(items) && items[i] != [] && ItemAt(b, at, i, items[i])
    requires ReadBack(b, at + 2 + |items[i]|, items, i + 1, i + 1)
    ensures ReadBack(b, at, items, i, last)
  {
    hide *;
    ShortItem(items, i);
    PresentRead(b, at, items, i, last);
    PresentIsBack(b, at, items, i, last);
  }

  lemma PresentRead(b: Bytes, at: nat, items: Items, i: nat, last: u8)
    requires i < 8 && Short(items) && items[i] != [] && |items[i]| < 0x100 && ItemAt(b, at, i, items[i])
    requires ReadBack(b, at + 2 + |items[i]|, items, i + 1, i + 1)
    ensures ReadItems(b, at, i, last) ==
            Ok(Read(InFront(items[i], Rest(items, i + 1, i + 1)), at + 2 + |items[i]| + |WriteItems(items, i + 1)|))
  {
    hide ItemAt, Short, ReadItems, WriteItems, Rest, InFront;
    TakeItem(b, at, i, last, items[i], Rest(items, i + 1, i + 1), at + 2 + |items[i]| + |WriteItems(items, i + 1)|);
  }

  lemma PresentIsBack(b: Bytes, at: nat, items: Items, i: nat, last: u8)
    requires i < 8 && Short(items) && items[i] != []
    requires ReadItems(b, at, i, last) ==
             Ok(Read(InFront(items[i], Rest(items, i + 1, i + 1)), at + 2 + |items[i]| + |WriteItems(items, i + 1)|))
    ensures ReadBack(b, at, items, i, last)
  {
    hide ReadItems, Short, WriteItems, Rest, InFront;
    RestUnfolds(items, i, last);
  }

  lemma PresentSplits(b: Bytes, at: nat, items: Items, i: nat)
    requires i < 8 && Short(items) && items[i] != [] && At(b, at, WriteItems(items, i) + [0])
    ensures |items[i]| < 0x100 && ItemAt(b, at, i, items[i])
    ensures At(b, at + 2 + |items[i]|, WriteItems(items, i + 1) + [0])
  {
    ShortItem(items, i);
    hide At, Short, WriteItems, Count, Total, LastType;
    UnfoldItems(items, i, 0);
    AtSplit(b, at, [i + 1, |items[i]|], items[i] + (WriteItems(items, i + 1) + [0]));
    HeaderAt(b, at, i + 1, |items[i]|);
    AtSplit(b, at + 2, items[i], WriteItems(items, i + 1) + [0]);
  }

  lemma AbsentSplits(b: Bytes, at: nat, items: Items, i: nat)
    requires i < 8 && Short(items) && items[i] == [] && At(b, at, WriteItems(items, i) + [0])
    ensures at < |b| && At(b, at, WriteItems(items, i + 1) + [0])
  {
    hide At, Short, WriteItems, Count, Total, LastType;
    UnfoldItems(items, i, 0);
    FirstAt(b, at, WriteItems(items, i + 1) + [0]);
  }

  lemma NoneReadBack(b: Bytes, at: nat, items: Items, last: u8)
    requires Short(items)
    ensures ReadBack(b, at, items, 8, last)
  {
    assert items[8..] == [];
  }

  /** The items come back, whichever of them are empty. */
  lemma {:induction false} ItemsRead(b: Bytes, at: nat, items: Items, i: nat, last: u8)
    requires i <= 8 && Short(items) && At(b, at, WriteItems(items, i) + [0])
    ensures ReadBack(b, at, items, i, last)
    decreases 8 - i, 1
  {
    if i == 8 {
      NoneReadBack(b, at, items, last);
    } else {
      if items[i] == [] {
        hide *;
        AbsentItemRead(b, at, items, i, last);
      } else {
        hide *;
        PresentItemRead(b, at, items, i, last);
      }
    }
  }

  lemma {:induction false} AbsentItemRead(b: Bytes, at: nat, items: Items, i: nat, last: u8)
    requires i < 8 && Short(items) && items[i] == [] && At(b, at, WriteItems(items, i) + [0])
    ensures ReadBack(b, at, items, i, last)
    decreases 8 - i, 0
  {
    hide *;
    AbsentSplits(b, at, items, i);
    var last' := if b[at] == 0 then last else b[at];
    ItemsRead(b, at, items, i + 1, last');
    AbsentReadBack(b, at, items, i, last);
  }

  lemma {:induction false} PresentItemRead(b: Bytes, at: nat, items: Items, i: nat, last: u8)
    requires i < 8 && Short(items) && items[i] != [] && At(b, at, WriteItems(items, i) + [0])
    ensures ReadBack(b, at, items, i, last)
    decreases 8 - i, 0
  {
    var item := items[i];
    hide *;
    PresentSplits(b, at, items, i);
    ItemsRead(b, at + 2 + |item|, items, i + 1, i + 1);
    PresentReadBack(b, at, items, i, last);
  }

  lemma {:induction false} NothingAfterLast(items: Items, i: nat, last: u8)
    requires i <= 8 && forall k | last <= k < i :: items[k] == []
    ensures forall k | LastType(items, i, last) <= k < 8 :: items[k] == []
    decreases 8 - i
  {
    if i < 8 {
      NothingAfterLast(items, i + 1, if items[i] == [] then last else i + 1);
    }
  }

  /** For every subset and size of the items: a source's items come back, and the cursor stops at the
      end of the section exactly if it was padded to a word. */
  lemma SdesRoundTrip(before: Bytes, s: Sdes, padding: nat, after: Bytes)
    requires Short(s.items)
    ensures ReadSdes(before + WriteSdes(s, padding) + after, |before|)
            == Ok(Read(s, |before| + |WriteSdes(s, padding)| - padding + Gap(2 * Count(s.items, 0) + Total(s.items, 0) + 1)))
  {
    hide Write32, Read32, Gap, ReadItems, WriteItems, LastType;
    var ssrc, octets, tail := Write32(s.ssrc), WriteItems(s.items, 0), Zeros(padding) + after;
    var b := before + WriteSdes(s, padding) + after;
    assert b == before + ssrc + (octets + [0] + tail);
    Read32Write32(before, s.ssrc, octets + [0] + tail);
    assert b == (before + ssrc) + (octets + [0]) + tail;
    StandsAt(before + ssrc, octets + [0], tail);
    ItemsRead(b, |before| + 4, s.items, 0, 0);
    NothingAfterLast(s.items, 0, 0);
    assert s.items[0..] == s.items;
    assert Emptied(s.items, LastType(s.items, 0, 0)) == s.items;
  }

  // ----- What is accepted -----

  /** Which section headers are accepted: version 2, a type from 200 to 204, all of it in the buffer, and a length
      that the packet without its padding has room for; and what is then read. */
  lemma HeaderAcceptedExactly(b: Bytes, at: nat, size: nat)
    requires size <= |b|
    ensures var r := ReadHeader(b, at, size);
            && (r.Ok? <==>
                && at + 4 <= |b| && 0x80 <= b[at] < 0xC0 && 200 <= b[at + 1] <= 204 && (b[at + 1] == 201 ==> at + 8 <= |b|)
                && (b[at] >= 0xA0 ==> size > 0)
                && 4 * (b[at + 2] as int * 0x100 + b[at + 3]) <= size - (if b[at] >= 0xA0 then b[size - 1] else 0))
            && (r.Ok? ==>
                  && r.value.at == (if b[at + 1] == 201 then at + 8 else at + 4)
                  && r.value.value.pt == b[at + 1] && r.value.value.sourceCount == b[at] % 0x20)
  {
    hide Read32;
  }

  // ----- What stands on the wire -----

  lemma SpellsAt(b: Bytes, at: nat, v: u32)
    requires at + 4 <= |b| && Read32(b, at) == v
    ensures Spells(b, at, 4, v)
  {
    hide Read32, Value;
    ReadSpells(b, at);
  }

  /** The section header: version 2 without padding and the source count, the packet type, the length in words less
      one, and the SSRC of an RR (section 6.4 of RFC 3550). */
  lemma HeaderOnTheWire(before: Bytes, h: Header, after: Bytes)
    requires h.sourceCount < 32 && h.length < 0x1_0000
    ensures var b, at := before + WriteHeader(h) + after, |before|;
            && |WriteHeader(h)| == (if h.pt == 201 then 8 else 4)
            && b[at] == 0x80 + h.sourceCount && b[at + 1] == h.pt
            && Spells(b, at + 2, 2, h.length) && (h.pt == 201 ==> Spells(b, at + 4, 4, h.ssrc))
  {
    hide Write16, Write32, Read16, Read32, Spells;
    var b := before + WriteHeader(h) + after;
    var first: Bytes, length := [CountOctet(h.sourceCount), h.pt], Write16(h.length);
    var ssrc := if h.pt == ERTCP_RR then Write32(h.ssrc) else [];
    assert b == (before + first) + length + (ssrc + after);
    Read16Write16(before + first, h.length, ssrc + after);
    ReadSpells(b, |before| + 2);
    assert b[|before|] == first[0] && b[|before| + 1] == first[1];
    if h.pt == ERTCP_RR {
      assert b == (before + first + length) + Write32(h.ssrc) + after;
      Read32Write32(before + first + length, h.ssrc, after);
      ReadSpells(b, |before| + 4);
    }
  }

  /** Section 6.4.1 of RFC 3550: SSRC, the two words of the NTP time, the RTP time, packet count and octet count. */
  lemma SrOnTheWire(before: Bytes, r: SenderReport, after: Bytes)
    ensures var b, at := before + WriteSr(r) + after, |before|;
            && |WriteSr(r)| == 24
            && Spells(b, at, 4, r.ssrc) && Spells(b, at + 4, 4, r.ntpSec) && Spells(b, at + 8, 4, r.ntpFrac)
            && Spells(b, at + 12, 4, r.timeStamp) && Spells(b, at + 16, 4, r.numPacketsSent)
            && Spells(b, at + 20, 4, r.cumNumOctetsSent)
  {
    hide Write32, Read32, Spells;
    var w := [r.ssrc, r.ntpSec, r.ntpFrac, r.timeStamp, r.numPacketsSent, r.cumNumOctetsSent];
    SixWordsRead(before, w, after);
    var b, n := before + WriteSr(r) + after, |before|;
    assert forall k | 0 <= k < 6 :: Read32(b, n + 4 * k) == w[k];
    SpellsAt(b, n + 4 * 0, w[0]);
    SpellsAt(b, n + 4 * 1, w[1]);
    SpellsAt(b, n + 4 * 2, w[2]);
    SpellsAt(b, n + 4 * 3, w[3]);
    SpellsAt(b, n + 4 * 4, w[4]);
    SpellsAt(b, n + 4 * 5, w[5]);
  }

  lemma LossFieldsRead(b: Bytes, at: nat)
    ensures at + 24 <= |b| ==> ReadRr(b, at).Ok? && ReadRr(b, at).value.value.fractionLost == b[at + 4]
                               && Spells(b, at + 5, 3, ReadRr(b, at).value.value.cumNumPacketsLost)
  {
    hide Value, Read24, Read32;
    if at + 24 <= |b| {
      ReadSpells(b, at + 5);
    }
  }

  lemma WordFieldsRead(b: Bytes, at: nat)
    ensures at + 24 <= |b| ==>
              ReadRr(b, at).Ok? &&
              var r := ReadRr(b, at).value.value;
              && Spells(b, at, 4, r.ssrc) && Spells(b, at + 8, 4, r.seqNumReceived)
              && Spells(b, at + 12, 4, r.arrivalJitter) && Spells(b, at + 16, 4, r.lastSR)
              && Spells(b, at + 20, 4, r.delaySinceLSR)
  {
    hide Value, Read24, Read32;
    if at + 24 <= |b| {
      ReadSpells(b, at);
      ReadSpells(b, at + 8);
      ReadSpells(b, at + 12);
      ReadSpells(b, at + 16);
      ReadSpells(b, at + 20);
    }
  }

  /** A report block: SSRC, fraction lost, 24 bits of the cumulative loss, the highest number, jitter, and the time
      and delay since the last SR. */
  lemma RrOnTheWire(before: Bytes, r: ReportBlock, after: Bytes)
    ensures var b, at := before + WriteRr(r) + after, |before|;
            && |WriteRr(r)| == 24
            && Spells(b, at, 4, r.ssrc) && b[at + 4] == r.fractionLost
            && Spells(b, at + 5, 3, r.cumNumPacketsLost % 0x100_0000) && Spells(b, at + 8, 4, r.seqNumReceived)
            && Spells(b, at + 12, 4, r.arrivalJitter) && Spells(b, at + 16, 4, r.lastSR)
            && Spells(b, at + 20, 4, r.delaySinceLSR)
  {
    hide WriteRr, ReadRr, Spells;
    RrRoundTrip(before, r, after);
    LossFieldsRead(before + WriteRr(r) + after, |before|);
    WordFieldsRead(before + WriteRr(r) + after, |before|);
  }

  /** Section 6.6 of RFC 3550: SSRC, the length of the reason, the reason, and zeros. */
  lemma ByeOnTheWire(before: Bytes, bye: Bye, padding: nat, after: Bytes)
    requires |bye.reason| < 0x100
    ensures var b, at, n := before + WriteBye(bye, padding) + after, |before|, |bye.reason|;
            && Spells(b, at, 4, bye.ssrc) && b[at + 4] == n && b[at + 5..at + 5 + n] == bye.reason
            && b[at + 5 + n..at + 5 + n + padding] == Zeros(padding)
  {
    hide Write32, Read32, Zeros, Spells;
    var ssrc, length := Write32(bye.ssrc), [|bye.reason|];
    var b := before + WriteBye(bye, padding) + after;
    assert b == before + ssrc + (length + bye.reason + Zeros(padding) + after);
    Read32Write32(before, bye.ssrc, length + bye.reason + Zeros(padding) + after);
    SpellsAt(b, |before|, bye.ssrc);
    assert b == (before + ssrc + length) + bye.reason + (Zeros(padding) + after);
    assert b == (before + ssrc + length + bye.reason) + Zeros(padding) + after;
  }

  /** Section 6.7 of RFC 3550: SSRC, four octets of name, and the data. */
  lemma AppOnTheWire(before: Bytes, app: App, after: Bytes)
    requires |app.name| == 4
    ensures var b, at := before + WriteApp(app) + after, |before|;
            && Spells(b, at, 4, app.ssrc) && b[at + 4..at + 8] == app.name && b[at + 8..at + 8 + |app.data|] == app.data
  {
    hide Write32, Read32, Spells;
    var ssrc := Write32(app.ssrc);
    var b := before + WriteApp(app) + after;
    assert b == before + ssrc + (app.name + app.data + after);
    Read32Write32(before, app.ssrc, app.name + app.data + after);
    SpellsAt(b, |before|, app.ssrc);
    assert b == (before + ssrc) + app.name + (app.data + after);
  }

  /** The octets of the items in front of item i: each with its type and its length, the empty ones left out. */
  function InFrontOf(items: Items, i: nat): nat
    requires i <= 8
  {
    if i == 0 then 0 else InFrontOf(items, i - 1) + if items[i - 1] == [] then 0 else 2 + |items[i - 1]|
  }

  lemma {:induction false} ItemsFrom(b: Bytes, at: nat, items: Items, i: nat)
    requires i <= 8 && Short(items) && At(b, at, WriteItems(items, 0) + [0])
    ensures At(b, at + InFrontOf(items, i), WriteItems(items, i) + [0])
  {
    hide At, Short, WriteItems;
    if i > 0 {
      ItemsFrom(b, at, items, i - 1);
      if items[i - 1] == [] {
        AbsentSplits(b, at + InFrontOf(items, i - 1), items, i - 1);
      } else {
        PresentSplits(b, at + InFrontOf(items, i - 1), items, i - 1);
      }
    }
  }

  /** Section 6.5 of RFC 3550: SSRC, then each item that is there with its type (1 for CNAME up to 8), its length and
      its octets, then a zero octet and the padding. */
  lemma SdesOnTheWire(before: Bytes, s: Sdes, padding: nat, after: Bytes)
    requires Short(s.items)
    ensures var b, at := before + WriteSdes(s, padding) + after, |before|;
            var end := at + 4 + InFrontOf(s.items, 8);
            && Spells(b, at, 4, s.ssrc)
            && (forall i | 0 <= i < 8 && s.items[i] != [] :: ItemAt(b, at + 4 + InFrontOf(s.items, i), i, s.items[i]))
            && end < |b| && b[end] == 0 && |WriteSdes(s, padding)| == 4 + InFrontOf(s.items, 8) + 1 + padding
  {
    hide Write32, Read32, WriteItems, Spells, At, ItemAt, Short, InFrontOf;
    var ssrc, octets, tail := Write32(s.ssrc), WriteItems(s.items, 0), Zeros(padding) + after;
    var b, at := before + WriteSdes(s, padding) + after, |before|;
    assert b == before + ssrc + (octets + [0] + tail);
    Read32Write32(before, s.ssrc, octets + [0] + tail);
    SpellsAt(b, at, s.ssrc);
    assert b == (before + ssrc) + (octets + [0]) + tail;
    StandsAt(before + ssrc, octets + [0], tail);
    forall i | 0 <= i < 8 && s.items[i] != [] ensures ItemAt(b, at + 4 + InFrontOf(s.items, i), i, s.items[i]) {
      ItemsFrom(b, at + 4, s.items, i);
      PresentSplits(b, at + 4 + InFrontOf(s.items, i), s.items, i);
    }
    ItemsFrom(b, at + 4, s.items, 8);
    NoItemsLeft(s.items);
    FirstAt(b, at + 4 + InFrontOf(s.items, 8), [0]);
    ItemsSpan(s.items, 8);
  }

  lemma NoItemsLeft(items: Items)
    requires Short(items)
    ensures WriteItems(items, 8) + [0] == [0]
  {
  }

  lemma {:induction false} ItemsSpan(items: Items, i: nat)
    requires i <= 8 && Short(items)
    ensures InFrontOf(items, i) + |WriteItems(items, i)| == |WriteItems(items, 0)|
  {
    if i > 0 {
      ItemsSpan(items, i - 1);
    }
  }
}
