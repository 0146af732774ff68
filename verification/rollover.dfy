/**
 Packet index arithmetic of section 3.3.1 and Appendix A of RFC 3711, in the
 machine widths of srtppacketrtp.cpp (sender) and srtpcryptohandlersrtp.cpp (receiver).

 A packet index is 2^16 * ROC + SEQ.  Only SEQ travels; the receiver guesses ROC
 from the highest index it has, cur = 2^16 * ROC + s_l.
 */
module Rollover {
  import opened Machine
  import opened Outcomes

  // ----- The mathematical form -----

  /** The indices the guess can land on: 2^16 consecutive ones around cur.  Which of the two
      indices at distance exactly 2^15 belongs to them depends on the half s_l lies in. */
  predicate InReach(cur: int, i: int) {
    if cur % 0x1_0000 < 0x8000 then -0x8000 < i - cur <= 0x8000
    else -0x8000 <= i - cur < 0x8000
  }

  /** The index in reach of cur that ends in sn. */
  function Nearest(cur: int, sn: u16): int {
    var d := (sn - cur) % 0x1_0000;
    if d < 0x8000 || (d == 0x8000 && cur % 0x1_0000 < 0x8000) then cur + d else cur + d - 0x1_0000
  }

  lemma NearestIsUnique(cur: int, sn: u16, i: int)
    ensures i % 0x1_0000 == sn && InReach(cur, i) <==> i == Nearest(cur, sn)
  {
    var d := (sn - cur) % 0x1_0000;
    assert (cur + d) % 0x1_0000 == sn;
  }

  // ----- The machine forms -----

  /** CountSenderPacketIndex: a 32-bit unsigned product and sum, stored in 64 bits. */
  function SenderIndex(roc: u32, sn: u16): u64 {
    ToU32(ToU32(0x1_0000 * roc as int) + sn)
  }

  /** The receiver's index: a 32-bit signed product and sum, sign-extended to 64 bits. */
  function ReceiverIndex(v: s32, sn: u16): u64 {
    ToU64(ToS32(sn + v as int * 0x1_0000))
  }

  /** Math::Int into a TInt32: fails when the value does not fit. */
  function MathInt(x: int): Option<s32> {
    if -0x8000_0000 <= x < 0x8000_0000 then Some(x) else None
  }

  /** The guess of CountReceiverPacketIndexL; None when it leaves. */
  function EstimateV(roc: u32, sL: u16, sn: u16): Option<s32> {
    if sL < 0x8000 then
      if sn - sL > 0x8000 then MathInt(ToU32(roc - 1)) else Some(ToS32(roc))
    else
      if sL - 0x8000 > sn then MathInt(ToU32(roc + 1)) else Some(ToS32(roc))
  }

  /** The roll-over counter of the in-reach index, before any machine width is applied. */
  lemma NearestCounter(roc: u32, sL: u16, sn: u16)
    ensures Nearest(roc as int * 0x1_0000 + sL, sn) == sn + 0x1_0000 * (
              if sL < 0x8000 then (if sn - sL > 0x8000 then roc - 1 else roc)
              else (if sL - 0x8000 > sn then roc + 1 else roc))
  {
    var v: int := if sL < 0x8000 then (if sn - sL > 0x8000 then roc - 1 else roc)
                  else (if sL - 0x8000 > sn then roc + 1 else roc);
    NearestIsUnique(roc as int * 0x1_0000 + sL, sn, sn + 0x1_0000 * v);
  }

  /** The receiver's machine index is the mathematical one exactly while 0 <= v < 2^15. */
  lemma ReceiverIndexExact(v: s32, sn: u16)
    ensures ReceiverIndex(v, sn) == v as int * 0x1_0000 + sn <==> 0 <= v < 0x8000
  {
  }

  /** The guess with the machine widths worked out, below ROC = 2^15. */
  lemma EstimateCounter(roc: u32, sL: u16, sn: u16)
    requires roc < 0x8000
    ensures EstimateV(roc, sL, sn) ==
            if sL < 0x8000 && sn - sL > 0x8000 then (if roc == 0 then None else Some(roc - 1))
            else if sL >= 0x8000 && sL - 0x8000 > sn then Some(roc + 1)
            else Some(roc)
  {
    assert ToU32(roc - 1) == (if roc == 0 then 0xFFFF_FFFF else roc - 1) && ToU32(roc + 1) == roc + 1;
  }

  /** The estimation meets section 3.3.1 for every receiver state: it gives the in-reach index ending
      in SEQ exactly if that index is not negative and below 2^31.  Below ROC = 2^15 it leaves exactly
      when that index would be negative. */
  lemma EstimateIsNearest(roc: u32, sL: u16, sn: u16)
    ensures var n, v := Nearest(roc as int * 0x1_0000 + sL, sn), EstimateV(roc, sL, sn);
            && ((v.Some? && ReceiverIndex(v.value, sn) == n) <==> 0 <= n < 0x8000_0000)
            && (roc < 0x8000 ==> if v.None? then n < 0 else 0 <= n && v.value == n / 0x1_0000)
  {
    NearestCounter(roc, sL, sn);
    if roc < 0x8000 {
      EstimateLow(roc, sL, sn);
    } else {
      EstimateHigh(roc, sL, sn);
    }
  }

  lemma EstimateLow(roc: u32, sL: u16, sn: u16)
    requires roc < 0x8000
    ensures var n := Nearest(roc as int * 0x1_0000 + sL, sn);
            match EstimateV(roc, sL, sn)
            case None => n < 0
            case Some(v) => 0 <= n && v == n / 0x1_0000 && (ReceiverIndex(v, sn) == n <==> n < 0x8000_0000)
  {
    NearestCounter(roc, sL, sn);
    EstimateCounter(roc, sL, sn);
    match EstimateV(roc, sL, sn) {
      case None =>
      case Some(v) =>
        assert Nearest(roc as int * 0x1_0000 + sL, sn) == v as int * 0x1_0000 + sn;
        ReceiverIndexExact(v, sn);
    }
  }

  /** The receiver's index is sign-extended from 32 bits. */
  lemma ReceiverIndexRange(v: s32, sn: u16)
    ensures ReceiverIndex(v, sn) < 0x8000_0000 || ReceiverIndex(v, sn) >= 0x1_0000_0000_0000_0000 - 0x8000_0000
  {
  }

  lemma EstimateHigh(roc: u32, sL: u16, sn: u16)
    requires roc >= 0x8000
    ensures var n, v := Nearest(roc as int * 0x1_0000 + sL, sn), EstimateV(roc, sL, sn);
            (v.Some? && ReceiverIndex(v.value, sn) == n) <==> 0 <= n < 0x8000_0000
  {
    NearestCounter(roc, sL, sn);
    var n, v := Nearest(roc as int * 0x1_0000 + sL, sn), EstimateV(roc, sL, sn);
    if v.Some? {
      ReceiverIndexRange(v.value, sn);
    }
    if n < 0x8000_0000 {
      assert roc == 0x8000 && v == Some(0x7FFF);
      ReceiverIndexExact(0x7FFF, sn);
    }
  }

  /** Index estimation is exact for every receiver state: the receiver recovers a sender's index that is
      in reach of its highest index if and only if it fits the signed 32-bit product; and below
      ROC = 2^15 it takes no index (48 bits wide) that is not in reach for its own. */
  lemma EstimateExact(roc: u32, sL: u16, i: nat)
    ensures var v, cur := EstimateV(roc, sL, i % 0x1_0000), roc as int * 0x1_0000 + sL;
            var recovered := v.Some? && ReceiverIndex(v.value, i % 0x1_0000) == i;
            && (InReach(cur, i) ==> (recovered <==> i < 0x8000_0000))
            && (roc < 0x8000 && i < 0x1_0000_0000_0000 ==> (recovered <==> InReach(cur, i) && i < 0x8000_0000))
  {
    var sn, cur := i % 0x1_0000, roc as int * 0x1_0000 + sL;
    NearestIsUnique(cur, sn, i);
    EstimateIsNearest(roc, sL, sn);
    if roc < 0x8000 {
      GuessOverflows(roc, sL, sn);
    }
    hide Nearest, InReach, EstimateV, ReceiverIndex;
  }

  /** When the guess does not fit, the machine index is no 48-bit number at all. */
  lemma GuessOverflows(roc: u32, sL: u16, sn: u16)
    requires roc < 0x8000
    ensures var v := EstimateV(roc, sL, sn);
            v.Some? && Nearest(roc as int * 0x1_0000 + sL, sn) >= 0x8000_0000 ==> ReceiverIndex(v.value, sn) >= 0x1_0000_0000_0000
  {
    EstimateIsNearest(roc, sL, sn);
    if EstimateV(roc, sL, sn).Some? {
      EstimateLow(roc, sL, sn);
      EstimateCounter(roc, sL, sn);
      var v := EstimateV(roc, sL, sn).value;
      if v >= 0x8000 {
        assert v == 0x8000 && ReceiverIndex(v, sn) == ToU64(sn - 0x8000_0000);
      }
    }
  }

  /** From ROC = 2^16 on an index far out of reach can come out: the first one, for the highest one 2^32. */
  lemma FarIndexRecovered()
    ensures EstimateV(0x1_0000, 0, 0) == Some(0x1_0000) && ReceiverIndex(0x1_0000, 0) == 0 && !InReach(0x1_0000_0000, 0)
  {
  }

  /** UpdateROC: the sender's counter behind a packet. */
  function RocBehind(roc: u32, sn: u16): u32 { if sn == 0xFFFF then ToU32(roc + 1) else roc }

  /** The sender's machine index is the mathematical one exactly while ROC < 2^16. */
  lemma SenderIndexExact(roc: u32, sn: u16)
    ensures SenderIndex(roc, sn) == roc as int * 0x1_0000 + sn <==> roc < 0x1_0000
  {
    assert ToU32(0x1_0000 * roc as int) == 0x1_0000 * (roc % 0x1_0000);
  }

  lemma WholeTurns(x: int, turns: int)
    requires 0 <= x < 0x1_0000_0000
    ensures (x + 0x1_0000_0000 * turns) % 0x1_0000_0000 == x
  {
  }

  lemma SenderSum(roc: u32, sn: u16)
    ensures SenderIndex(roc, sn) == sn + roc % 0x1_0000 * 0x1_0000
  {
    WholeTurns(0x1_0000 * (roc % 0x1_0000), roc / 0x1_0000);
  }

  lemma ReceiverSum(roc: u32, sn: u16)
    ensures var sum := sn + roc % 0x1_0000 * 0x1_0000;
            ReceiverIndex(ToS32(roc), sn) == if sum < 0x8000_0000 then sum else ToU64(sum - 0x1_0000_0000)
  {
    var q := roc / 0x1_0000;
    var turns: int := if roc < 0x8000_0000 then q else q - 0x1_0000;
    var sum: u32 := sn + roc % 0x1_0000 * 0x1_0000;
    assert sn + ToS32(roc) as int * 0x1_0000 == sum + 0x1_0000_0000 * turns;
    WholeTurns(sum, turns);
  }

  /** Given the same roll-over counter, the two machine forms agree exactly while its low
      16 bits stay in the lower half. */
  lemma SenderAndReceiverAgree(roc: u32, sn: u16)
    ensures SenderIndex(roc, sn) == ReceiverIndex(ToS32(roc), sn) <==> roc % 0x1_0000 < 0x8000
  {
    hide SenderIndex, ReceiverIndex, ToS32;
    SenderSum(roc, sn);
    ReceiverSum(roc, sn);
  }

  // ----- Section 3.3.1's update after a packet has been accepted -----

  /** Update_s_l_and_RocL on (ROC, s_l); None when it leaves.  The C++ compares v with ROC - 1
      after narrowing both to 32 bits. */
  function UpdateRocAndSl(roc: u32, sL: u16, v: s32, sn: u16): Option<(u32, u16)> {
    if v == ToS32(roc - 1) then Some((roc, sL))
    else if ToU32(v) == roc then Some((roc, if sn > sL then sn else sL))
    else match MathInt(ToU32(roc + 1))
         case None => None
         case Some(next) => if v == next then Some((ToU32(v), sn)) else Some((roc, sL))
  }

  /** After the update the receiver's highest index is the larger of the old one and the
      accepted one. */
  lemma UpdateKeepsMaximum(roc: u32, sL: u16, sn: u16)
    requires roc < 0x8000
    requires 0 <= Nearest(roc as int * 0x1_0000 + sL, sn)
    ensures var cur, n := roc as int * 0x1_0000 + sL, Nearest(roc as int * 0x1_0000 + sL, sn);
            var r := UpdateRocAndSl(roc, sL, n / 0x1_0000, sn);
            r.Some? && r.value.0 * 0x1_0000 + r.value.1 == if n > cur then n else cur
  {
    NearestCounter(roc, sL, sn);
    var n := Nearest(roc as int * 0x1_0000 + sL, sn);
    var v := n / 0x1_0000;
    assert n == v * 0x1_0000 + sn;
    assert ToS32(roc - 1) == roc - 1 && ToU32(v) == v && ToU32(roc + 1) == roc + 1;
  }
}
