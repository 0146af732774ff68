/**
 NTP time in 16.16 fixed point and the round-trip delay (rtptranstream.cpp, rtprecvstream.cpp,
 section 6.4.1 of RFC 3550).  Local time is counted in tenths of a millisecond on a 32-bit
 clock that wraps.
 */
module NtpClock {
  import opened Machine

  const KTenthOfmsPerSecond := 10000

  /** Tenths of a millisecond in 16.16 fixed-point seconds, rounded down. */
  function Fixed(t: nat): nat { t * 0x1_0000 / 10000 }

  /** 16.16 fixed-point seconds in tenths of a millisecond, rounded down. */
  function Tenths(y: nat): nat { y * 10000 / 0x1_0000 }

  /** iSyncInfo: an NTP time and the local time it belongs to. */
  datatype SyncInfo = SyncInfo(sec: u32, frac: u32, localTime: u32)

  /** RtpStreamSyncCurrent: the NTP time at local time now. */
  function SyncCurrent(s: SyncInfo, now: u32): (u32, u32) {
    var elapsed := ToU32(now - s.localTime);
    (ToU32(s.sec + elapsed / KTenthOfmsPerSecond),
     ToU32(ToU32(elapsed % KTenthOfmsPerSecond * 0x1_0000) / KTenthOfmsPerSecond * 0x1_0000))
  }

  /** The middle 32 bits of an NTP time stamp, as reported in LSR. */
  function Middle32(sec: u32, frac: u32): u32 {
    ToU32(ToU32(sec as int * 0x1_0000) + frac / 0x1_0000)
  }

  /** The delay since the last SR, put together from whole seconds and a rest. */
  function DelaySince(now: u32, then_: u32): u32 {
    var elapsed := ToU32(now - then_);
    ToU32(ToU32(elapsed / KTenthOfmsPerSecond * 0x1_0000)
          + ToU32(elapsed % KTenthOfmsPerSecond * 0x1_0000) / KTenthOfmsPerSecond)
  }

  /** The middle 32 bits of the NTP time at local time now, as the round-trip code puts them together. */
  function CurrentNTP(s: SyncInfo, now: u32): u32 {
    var elapsed := ToU32(now - s.localTime);
    ToU32(ToU32(ToU32(s.sec + elapsed / KTenthOfmsPerSecond) as int * 0x1_0000)
          + ToU32(elapsed % KTenthOfmsPerSecond * 0x1_0000) / KTenthOfmsPerSecond)
  }

  /** The end of RtpStreamSyncGetRoundTripDelay: a difference of time stamps in tenths of a millisecond. */
  function InTenths(difference: s32): u32 {
    if difference > 0 then
      ToU32(difference / 0x1_0000 * KTenthOfmsPerSecond
            + ToU32(difference % 0x1_0000 * KTenthOfmsPerSecond) / 0x1_0000)
    else 0
  }

  /** RtpStreamSyncGetRoundTripDelay */
  function RoundTripDelay(s: SyncInfo, now: u32, lastSR: u32, delaySinceLSR: u32): u32 {
    if lastSR == 0 then 0 else InTenths(ToS32(CurrentNTP(s, now) - lastSR - delaySinceLSR))
  }

  // ----- The conversions are the rounded ones -----

  lemma FixedInPieces(t: nat)
    ensures Fixed(t) == t / 10000 * 0x1_0000 + t % 10000 * 0x1_0000 / 10000
    ensures 10000 * Fixed(t) <= 0x1_0000 * t < 10000 * Fixed(t) + 10000
  {
    var q, m := t / 10000, t % 10000;
    assert t * 0x1_0000 == 10000 * (q * 0x1_0000) + m * 0x1_0000;
  }

  lemma TenthsInPieces(y: nat)
    ensures Tenths(y) == y / 0x1_0000 * 10000 + y % 0x1_0000 * 10000 / 0x1_0000
    ensures 0x1_0000 * Tenths(y) <= 10000 * y < 0x1_0000 * Tenths(y) + 0x1_0000
  {
    var q, m := y / 0x1_0000, y % 0x1_0000;
    assert y * 10000 == 0x1_0000 * (q * 10000) + m * 10000;
  }

  lemma InTenthsRoundsDown(y: s32)
    ensures InTenths(y) == if y > 0 then Tenths(y) else 0
  {
    if y > 0 {
      TenthsInPieces(y);
    }
  }

  // ----- Readings of a clock that wraps -----

  /** Equal up to whole turns: the same clock reading. */
  lemma SameTurn(x: int, y: int, turns: int)
    requires x == y + 0x1_0000_0000 * turns
    ensures ToU32(x) == ToU32(y) && ToS32(x) == ToS32(y)
  {
    assert x == (y / 0x1_0000_0000 + turns) * 0x1_0000_0000 + y % 0x1_0000_0000;
  }

  lemma Turns(x: nat)
    ensures x == x / 0x1_0000_0000 * 0x1_0000_0000 + ToU32(x)
  {
  }

  lemma NarrowFits(x: s32)
    ensures ToS32(x) == x
  {
  }

  lemma ClockDifference(t: nat, s: nat)
    requires 0 <= t - s < 0x1_0000_0000
    ensures ToU32(ToU32(t) - ToU32(s)) == t - s
  {
    SameTurn(ToU32(t) - ToU32(s), t - s, s / 0x1_0000_0000 - t / 0x1_0000_0000);
  }

  /** Seconds and a fraction put together in 16.16: only the low 16 bits of the seconds are left. */
  lemma SecondsAndFraction(seconds: nat, fraction: u16)
    ensures ToU32(ToU32(ToU32(seconds) as int * 0x1_0000) + fraction) == ToU32(seconds * 0x1_0000 + fraction)
  {
    var t := seconds / 0x1_0000_0000;
    SameTurn(ToU32(seconds) as int * 0x1_0000, seconds * 0x1_0000, -t * 0x1_0000);
    var high := seconds * 0x1_0000;
    SameTurn(ToU32(high) + fraction, high + fraction, -(high / 0x1_0000_0000));
  }

  /** The delay since the last SR is the elapsed time in fixed point, modulo 2^16 seconds. */
  lemma DelaySinceIsFixed(now: nat, then_: nat)
    requires 0 <= now - then_ < 0x1_0000_0000
    ensures DelaySince(ToU32(now), ToU32(then_)) == ToU32(Fixed(now - then_))
  {
    hide Fixed;
    var elapsed := now - then_;
    ClockDifference(now, then_);
    FixedInPieces(elapsed);
    var whole, part := elapsed / 10000, elapsed % 10000 * 0x1_0000;
    assert ToU32(part) == part && ToU32(whole) == whole;
    SecondsAndFraction(whole, part / 10000);
  }

  lemma CurrentNTPIsFixed(s: SyncInfo, elapsed: u32, now: u32)
    requires ToU32(now - s.localTime) == elapsed
    ensures CurrentNTP(s, now) == ToU32(s.sec as int * 0x1_0000 + Fixed(elapsed))
  {
    hide Fixed;
    FixedInPieces(elapsed);
    var whole, part := elapsed / 10000, elapsed % 10000 * 0x1_0000;
    assert ToU32(part) == part;
    SecondsAndFraction(s.sec + whole, part / 10000);
  }

  lemma FractionOfSecond(part: nat)
    requires part < 10000 * 0x1_0000
    ensures ToU32(ToU32(part) / 10000 * 0x1_0000) / 0x1_0000 == part / 10000 < 0x1_0000
    ensures ToU32(ToU32(part) / 10000 * 0x1_0000) % 0x1_0000 == 0
  {
    assert ToU32(part) == part && part / 10000 < 0x1_0000;
    assert ToU32(part / 10000 * 0x1_0000) == part / 10000 * 0x1_0000;
  }

  /** The time stamp of an SR, as the receiver keeps it, is the fixed-point time it was sent at. */
  lemma MiddleOfCurrent(s: SyncInfo, elapsed: u32, now: u32)
    requires ToU32(now - s.localTime) == elapsed
    ensures var (sec, frac) := SyncCurrent(s, now);
            Middle32(sec, frac) == ToU32(s.sec as int * 0x1_0000 + Fixed(elapsed))
  {
    hide Fixed, ToU32;
    FixedInPieces(elapsed);
    var whole, part := elapsed / 10000, elapsed % 10000 * 0x1_0000;
    FractionOfSecond(part);
    SecondsAndFraction(s.sec + whole, part / 10000);
  }

  /** The whole NTP time of an SR, in units of 2^-16 seconds: the reference and the fixed-point time since then, on
      seconds that wrap at 2^32; the low half of the fraction is empty. */
  lemma CurrentIsFixed(s: SyncInfo, elapsed: u32, now: u32)
    requires ToU32(now - s.localTime) == elapsed
    ensures var (sec, frac) := SyncCurrent(s, now);
            && sec as int * 0x1_0000 + frac / 0x1_0000 == (s.sec as int * 0x1_0000 + Fixed(elapsed)) % 0x1_0000_0000_0000
            && frac % 0x1_0000 == 0
  {
    hide Fixed, ToU32;
    FixedInPieces(elapsed);
    var whole, part := elapsed / 10000, elapsed % 10000 * 0x1_0000;
    FractionOfSecond(part);
    HighAndLow(s.sec + whole, part / 10000);
  }

  lemma HighAndLow(seconds: nat, fraction: u16)
    ensures ToU32(seconds) as int * 0x1_0000 + fraction == (seconds * 0x1_0000 + fraction) % 0x1_0000_0000_0000
  {
    var q, r := seconds / 0x1_0000_0000, ToU32(seconds) as int * 0x1_0000 + fraction;
    assert seconds * 0x1_0000 + fraction == q * 0x1_0000_0000_0000 + r;
    assert 0 <= r < 0x1_0000_0000_0000;
    LowPart(q, r);
  }

  lemma LowPart(q: nat, r: nat)
    requires r < 0x1_0000_0000_0000
    ensures (q * 0x1_0000_0000_0000 + r) % 0x1_0000_0000_0000 == r
  {
  }

  // ----- The round trip -----

  /** The delay computed from three readings that are fixed-point times modulo 2^16 seconds. */
  lemma DifferenceOfReadings(current: u32, lastSR: u32, reported: u32, base: nat, f2: nat, f1: nat, held: nat)
    requires current == ToU32(base + f2) && lastSR == ToU32(base + f1) && reported == ToU32(held)
    requires -0x8000_0000 <= f2 - f1 - held < 0x8000_0000
    ensures ToS32(current - lastSR - reported) == f2 - f1 - held
  {
    hide ToU32, ToS32;
    Turns(base + f2);
    Turns(base + f1);
    Turns(held);
    NarrowFits(f2 - f1 - held);
    var turns := (base + f1) / 0x1_0000_0000 + held / 0x1_0000_0000 - (base + f2) / 0x1_0000_0000;
    SameTurn(current - lastSR - reported, f2 - f1 - held, turns);
  }

  /** Three conversions rounded down and one back: the result is the true value or one less. */
  lemma FourRoundings(a: nat, b: nat, hold: nat)
    requires 0 <= a - b - hold < 327_679_999
    ensures var r, y := a - b - hold, Fixed(a) - Fixed(b) - Fixed(hold);
            && -2 <= y < 0x8000_0000
            && (if y > 0 then Tenths(y) == r || Tenths(y) == r - 1 else r == 0)
  {
    hide Fixed, Tenths;
    FixedInPieces(a);
    FixedInPieces(b);
    FixedInPieces(hold);
    var y := Fixed(a) - Fixed(b) - Fixed(hold);
    if y > 0 {
      TenthsInPieces(y);
    }
  }

  /**
   Two peers, each with its own clock.  The sender's clock shows start when its NTP reference is
   taken, t1 when it sends an SR and t2 when the RR comes back; the receiver's own clock shows h1
   when the SR comes in and h2 when the RR goes out.  The true round-trip time is
   r = (t2 - t1) - (h2 - h1).

   The measured delay is r or r - 1 tenths of a millisecond, and 0 for r = 0: never negative and
   never above the truth, although three conversions to 16.16 and one back are rounded down.  The
   one exception is an SR whose time stamp has middle bits 0, for which 0 is reported, so the
   measurement is right exactly if those bits are not zero or r is at most 1.
   */
  lemma MeasuredRoundTrip(sec0: u32, frac0: u32, start: nat, t1: nat, t2: nat, h1: nat, h2: nat)
    requires start <= t1 <= t2 < start + 0x1_0000_0000
    requires h1 <= h2 < h1 + 0x1_0000_0000
    requires 0 <= (t2 - t1) - (h2 - h1) < 327_679_999
    ensures var r := (t2 - t1) - (h2 - h1);
            var s := SyncInfo(sec0, frac0, ToU32(start));
            var (sec, frac) := SyncCurrent(s, ToU32(t1));
            var lastSR := Middle32(sec, frac);
            var measured := RoundTripDelay(s, ToU32(t2), lastSR, DelaySince(ToU32(h2), ToU32(h1)));
            && (lastSR == 0 ==> measured == 0)
            && (lastSR != 0 ==> measured == r || measured == r - 1)
            && ((measured == r || measured == r - 1) <==> lastSR != 0 || r <= 1)
  {
    hide SyncCurrent, Middle32, DelaySince, CurrentNTP, InTenths, Fixed, Tenths, ToU32, ToS32;
    var s := SyncInfo(sec0, frac0, ToU32(start));
    var (sec, frac) := SyncCurrent(s, ToU32(t1));
    var lastSR, reported := Middle32(sec, frac), DelaySince(ToU32(h2), ToU32(h1));
    var a, b, hold := t2 - start, t1 - start, h2 - h1;
    ClockDifference(t1, start);
    ClockDifference(t2, start);
    MiddleOfCurrent(s, b, ToU32(t1));
    CurrentNTPIsFixed(s, a, ToU32(t2));
    DelaySinceIsFixed(h2, h1);
    FourRoundings(a, b, hold);
    DifferenceOfReadings(CurrentNTP(s, ToU32(t2)), lastSR, reported,
                         s.sec as int * 0x1_0000, Fixed(a), Fixed(b), Fixed(hold));
    InTenthsRoundsDown(Fixed(a) - Fixed(b) - Fixed(hold));
  }

  /** The exception at work: clocks at 0 and an SR sent at once give a stamp of 0, and a round trip of one
      second is measured as none. */
  lemma ZeroStampMeasuresNothing()
    ensures var s := SyncInfo(0, 0, 0);
            var (sec, frac) := SyncCurrent(s, 0);
            Middle32(sec, frac) == 0 && RoundTripDelay(s, 10000, Middle32(sec, frac), DelaySince(0, 0)) == 0
  {
    var s := SyncInfo(0, 0, 0);
    assert ToU32(0) == 0;
    assert SyncCurrent(s, 0) == (0, 0) && Middle32(0, 0) == 0;
    hide SyncCurrent, Middle32, DelaySince, CurrentNTP, InTenths;
  }
}
