/** Results of calls that may leave with a system-wide error code, or stop the thread. */
module Outcomes {
  datatype Option<+T> = None | Some(value: T)

  /** KErrCorrupt, KErrNotFound, ... and Panic for a descriptor panic, which no caller can trap. */
  datatype Error = Corrupt | NotFound | Argument | TooBig | Overflow | General | Panic

  datatype Result<+T> = Ok(value: T) | Leave(error: Error)
}

/** Fixed-width integers, 64-bit words and octet strings as the C++ sources use them. */
module Machine {

  // ----- Integer widths (TUint8, TUint16, TUint32, TUint64, TInt32) -----

  type u8 = x: int | 0 <= x < 0x100
  type u16 = x: int | 0 <= x < 0x1_0000
  type u32 = x: int | 0 <= x < 0x1_0000_0000
  type u64 = x: int | 0 <= x < 0x1_0000_0000_0000_0000
  type s32 = x: int | -0x8000_0000 <= x < 0x8000_0000

  function ToU16(x: int): u16 { x % 0x1_0000 }

  function ToU32(x: int): u32 { x % 0x1_0000_0000 }

  function ToU64(x: int): u64 { x % 0x1_0000_0000_0000_0000 }

  /** The two's complement reading of the low 32 bits of x. */
  function ToS32(x: int): s32 {
    var low := x % 0x1_0000_0000;
    if low < 0x8000_0000 then low else low - 0x1_0000_0000
  }

  /** Reinterpreting a TUint32 as a TInt32 and back loses nothing. */
  lemma U32OfS32(x: u32)
    ensures ToU32(ToS32(x)) == x
  {
  }

  // ----- A TUint64 used as a bit set: its 64 bits, least significant first -----

  type Word64 = bits: seq<bool> | |bits| == 64 witness Clear(64)

  function Clear(n: nat): (bits: seq<bool>)
    ensures |bits| == n
    ensures forall k | 0 <= k < n :: !bits[k]
  {
    if n == 0 then [] else Clear(n - 1) + [false]
  }

  const ZERO: Word64 := Clear(64)
  const ONE: Word64 := Clear(64)[0 := true]

  /** w << n, for the shift counts C++ defines. */
  function ShiftLeft(w: Word64, n: nat): (r: Word64)
    requires n < 64
    ensures forall k | 0 <= k < 64 :: r[k] == (n <= k && w[k - n])
  {
    Clear(n) + w[..64 - n]
  }

  /** w | (1 << n) */
  function SetBit(w: Word64, n: nat): Word64
    requires n < 64
  {
    w[n := true]
  }
}

/** Octet strings: big-endian fields, exclusive or, and blocks. */
module Octets {
  import opened Machine

  type Octet = u8
  type Bytes = seq<Octet>

  function Zeros(n: nat): (z: Bytes)
    ensures |z| == n
    ensures forall i | 0 <= i < n :: z[i] == 0
  {
    if n == 0 then [] else Zeros(n - 1) + [0]
  }

  /** A packet in five parts, sliced at its seams. */
  lemma Seams(a: Bytes, b: Bytes, c: Bytes, d: Bytes, e: Bytes)
    ensures var all := a + b + c + d + e;
            var n := |all|;
            && all[..|a|] == a
            && all[|a|..|a| + |b|] == b
            && all[..|a| + |b| + |c|] == a + b + c
            && all[n - |e| - |d|..n - |e|] == d
            && all[n - |e|..] == e
  {
  }

  // ----- Numbers -----

  /** The number a string of octets spells, most significant first. */
  function Value(b: Bytes): nat {
    if b == [] then 0 else 256 * Value(b[..|b| - 1]) + b[|b| - 1]
  }

  lemma ValueAppend(b: Bytes, x: Octet)
    ensures Value(b + [x]) == 256 * Value(b) + x
  {
    assert (b + [x])[..|b|] == b;
  }

  /** n octets of a packet spell a number, most significant first: network order. */
  predicate Spells(b: Bytes, at: nat, n: nat, v: nat) { at + n <= |b| && Value(b[at..at + n]) == v }

  lemma ValueOfFew(a: Octet, b: Octet, c: Octet, d: Octet)
    ensures Value([a]) == a && Value([a, b]) == 0x100 * a as int + b
    ensures Value([a, b, c]) == 0x1_0000 * a as int + 0x100 * b as int + c
    ensures Value([a, b, c, d]) == 0x100_0000 * a as int + 0x1_0000 * b as int + 0x100 * c as int + d
  {
    hide Value;
    ValueAppend([], a);
    ValueAppend([a], b);
    ValueAppend([a, b], c);
    ValueAppend([a, b, c], d);
    NoValue();
    assert [] + [a] == [a] && [a] + [b] == [a, b] && [a, b] + [c] == [a, b, c] && [a, b, c] + [d] == [a, b, c, d];
  }

  /** As many octets that spell the same number are the same. */
  lemma {:induction false} SameValue(a: Bytes, b: Bytes)
    requires |a| == |b| && Value(a) == Value(b)
    ensures a == b
    decreases |a|
  {
    if a != [] {
      SameValue(a[..|a| - 1], b[..|b| - 1]);
      assert a == a[..|a| - 1] + [a[|a| - 1]] && b == b[..|b| - 1] + [b[|b| - 1]];
    }
  }

  lemma NoValue()
    ensures Value([]) == 0
  {
  }

  // ----- Write16/24/32 and Read16/24/32: most significant octet first -----

  function Write16(v: u16): (b: Bytes)
    ensures |b| == 2
  {
    [v / 0x100, v % 0x100]
  }

  function Write24(v: u32): (b: Bytes)
    ensures |b| == 3
  {
    [v / 0x1_0000 % 0x100] + Write16(v % 0x1_0000)
  }

  function Write32(v: u32): (b: Bytes)
    ensures |b| == 4
  {
    Write16(v / 0x1_0000) + Write16(v % 0x1_0000)
  }

  function Read16(b: Bytes, at: nat): u16
    requires at + 2 <= |b|
  {
    b[at + 1] as int + b[at] as int * 0x100
  }

  function Read24(b: Bytes, at: nat): u32
    requires at + 3 <= |b|
  {
    b[at] as int * 0x1_0000 + Read16(b, at + 1)
  }

  function Read32(b: Bytes, at: nat): u32
    requires at + 4 <= |b|
  {
    Read16(b, at) as int * 0x1_0000 + Read16(b, at + 2)
  }

  /** What is read is what the octets spell. */
  lemma ReadSpells(b: Bytes, at: nat)
    ensures at + 2 <= |b| ==> Spells(b, at, 2, Read16(b, at))
    ensures at + 3 <= |b| ==> Spells(b, at, 3, Read24(b, at))
    ensures at + 4 <= |b| ==> Spells(b, at, 4, Read32(b, at))
  {
    hide Value;
    if at + 2 <= |b| {
      assert b[at..at + 2] == [b[at], b[at + 1]];
      ValueOfFew(b[at], b[at + 1], 0, 0);
    }
    if at + 3 <= |b| {
      assert b[at..at + 3] == [b[at], b[at + 1], b[at + 2]];
      ValueOfFew(b[at], b[at + 1], b[at + 2], 0);
    }
    if at + 4 <= |b| {
      assert b[at..at + 4] == [b[at], b[at + 1], b[at + 2], b[at + 3]];
      ValueOfFew(b[at], b[at + 1], b[at + 2], b[at + 3]);
    }
  }

  /** A 16-bit field written anywhere in a packet reads back. */
  lemma Read16Write16(before: Bytes, v: u16, after: Bytes)
    ensures Read16(before + Write16(v) + after, |before|) == v
  {
    var all := before + Write16(v) + after;
    assert all[|before|] == Write16(v)[0] && all[|before| + 1] == Write16(v)[1];
  }

  /** A 24-bit field keeps the low 24 bits of the value written. */
  lemma Read24Write24(before: Bytes, v: u32, after: Bytes)
    ensures Read24(before + Write24(v) + after, |before|) == v % 0x100_0000
  {
    var high, low := v / 0x1_0000 % 0x100, v % 0x1_0000;
    assert before + Write24(v) + after == (before + [high]) + Write16(low) + after;
    Read16Write16(before + [high], low, after);
    assert v == v / 0x1_0000 / 0x100 * 0x100_0000 + high * 0x1_0000 + low;
  }

  lemma Read32Write32(before: Bytes, v: u32, after: Bytes)
    ensures Read32(before + Write32(v) + after, |before|) == v
  {
    var high, low := Write16(v / 0x1_0000), Write16(v % 0x1_0000);
    assert before + Write32(v) + after == before + high + (low + after);
    assert before + Write32(v) + after == (before + high) + low + after;
    Read16Write16(before, v / 0x1_0000, low + after);
    Read16Write16(before + high, v % 0x1_0000, after);
  }

  /** Four octets are determined by the number they spell. */
  lemma Write32Read32(b: Bytes, at: nat)
    requires at + 4 <= |b|
    ensures Write32(Read32(b, at)) == b[at..at + 4]
  {
    assert Read32(b, at) / 0x1_0000 == Read16(b, at) && Read32(b, at) % 0x1_0000 == Read16(b, at + 2);
    Write16Read16(b, at);
    Write16Read16(b, at + 2);
  }

  lemma Write16Read16(b: Bytes, at: nat)
    requires at + 2 <= |b|
    ensures Write16(Read16(b, at)) == b[at..at + 2]
  {
    var high: int, low: int := b[at], b[at + 1];
    assert (high * 0x100 + low) / 0x100 == high && (high * 0x100 + low) % 0x100 == low;
  }

  // ----- Exclusive or -----

  /** Exclusive or of the n low bits. */
  function XorBits(n: nat, a: nat, b: nat): nat {
    if n == 0 then 0
    else 2 * XorBits(n - 1, a / 2, b / 2) + (if a % 2 == b % 2 then 0 else 1)
  }

  /** The k-th binary digit. */
  function Bit(x: nat, k: nat): nat { if k == 0 then x % 2 else Bit(x / 2, k - 1) }

  lemma {:induction false} BitIsBinary(x: nat, k: nat)
    ensures Bit(x, k) == 0 || Bit(x, k) == 1
  {
    if k > 0 {
      BitIsBinary(x / 2, k - 1);
    }
  }

  /** Each of the n low bits is set exactly if the two differ in it. */
  lemma {:induction false} XorBitsDiffer(n: nat, a: nat, b: nat, k: nat)
    requires k < n
    ensures Bit(XorBits(n, a, b), k) == if Bit(a, k) == Bit(b, k) then 0 else 1
  {
    var x := XorBits(n, a, b);
    assert x / 2 == XorBits(n - 1, a / 2, b / 2);
    if k > 0 {
      XorBitsDiffer(n - 1, a / 2, b / 2, k - 1);
    }
  }

  lemma {:induction false} XorBitsCommute(n: nat, a: nat, b: nat)
    ensures XorBits(n, a, b) == XorBits(n, b, a)
  {
    if n > 0 {
      XorBitsCommute(n - 1, a / 2, b / 2);
    }
  }

  function Xor(a: Octet, b: Octet): Octet {
    XorBound(8, a, b);
    XorBits(8, a, b)
  }

  function Pow2(n: nat): nat { if n == 0 then 1 else 2 * Pow2(n - 1) }

  lemma {:induction false} XorBound(n: nat, a: nat, b: nat)
    ensures XorBits(n, a, b) < Pow2(n)
    ensures Pow2(8) == 256
  {
    if n > 0 {
      XorBound(n - 1, a / 2, b / 2);
    }
  }

  lemma {:induction false} XorBitsCancel(n: nat, a: nat, b: nat)
    requires a < Pow2(n)
    ensures XorBits(n, XorBits(n, a, b), b) == a
  {
    if n > 0 {
      XorBitsCancel(n - 1, a / 2, b / 2);
      var x := XorBits(n, a, b);
      assert x / 2 == XorBits(n - 1, a / 2, b / 2);
    }
  }

  lemma XorCancel(a: Octet, b: Octet)
    ensures Xor(Xor(a, b), b) == a
  {
    XorBound(8, a, b);
    XorBitsCancel(8, a, b);
  }

  /** A bit of the exclusive or is set exactly if the two octets differ in it. */
  lemma XorDiffers(a: Octet, b: Octet, k: nat)
    requires k < 8
    ensures Bit(Xor(a, b), k) == if Bit(a, k) == Bit(b, k) then 0 else 1
  {
    XorBitsDiffer(8, a, b, k);
  }

  lemma XorCommutes(a: Octet, b: Octet)
    ensures Xor(a, b) == Xor(b, a)
  {
    XorBitsCommute(8, a, b);
  }

  /** Octet-wise exclusive or of two strings of the same length. */
  function XorAll(a: Bytes, b: Bytes): (r: Bytes)
    requires |a| == |b|
    ensures |r| == |a|
  {
    seq(|a|, i requires 0 <= i < |a| => Xor(a[i], b[i]))
  }

  lemma XorAllCancel(a: Bytes, b: Bytes)
    requires |a| == |b|
    ensures XorAll(XorAll(a, b), b) == a
  {
    forall i | 0 <= i < |a| ensures XorAll(XorAll(a, b), b)[i] == a[i] {
      XorCancel(a[i], b[i]);
    }
  }

  lemma XorAllConcat(a: Bytes, b: Bytes, c: Bytes, d: Bytes)
    requires |a| == |c| && |b| == |d|
    ensures XorAll(a + b, c + d) == XorAll(a, c) + XorAll(b, d)
  {
  }

  lemma XorAllInjective(a: Bytes, a': Bytes, b: Bytes)
    requires |a| == |a'| == |b|
    requires XorAll(a, b) == XorAll(a', b)
    ensures a == a'
  {
    XorAllCancel(a, b);
    XorAllCancel(a', b);
  }

  // ----- Exclusive or of numbers -----

  /** a * 2^k */
  function Doubled(a: nat, k: nat): nat { if k == 0 then a else 2 * Doubled(a, k - 1) }

  lemma XorBitsStep(n: nat, a: nat, x: nat, b: nat, y: nat)
    ensures XorBits(n + 1, 2 * a + x, 2 * b + y) == 2 * XorBits(n, a + x / 2, b + y / 2) + (if x % 2 == y % 2 then 0 else 1)
  {
    assert (2 * a + x) / 2 == a + x / 2 && (2 * b + y) / 2 == b + y / 2;
  }

  lemma {:induction false} XorBitsSplit(n: nat, k: nat, a: nat, x: nat, b: nat, y: nat)
    requires x < Pow2(k) && y < Pow2(k)
    ensures XorBits(n + k, Doubled(a, k) + x, Doubled(b, k) + y) == Doubled(XorBits(n, a, b), k) + XorBits(k, x, y)
    decreases k
  {
    if k > 0 {
      hide XorBits, Pow2, Doubled;
      var da, db, dx := Doubled(a, k - 1), Doubled(b, k - 1), Doubled(XorBits(n, a, b), k - 1);
      DoubledStep(a, b, XorBits(n, a, b), k);
      XorBitsStep(k - 1, 0, x, 0, y);
      XorBitsStep(n + k - 1, da, x, db, y);
      XorBitsSplit(n, k - 1, a, x / 2, b, y / 2);
    }
  }

  lemma DoubledStep(a: nat, b: nat, c: nat, k: nat)
    requires k > 0
    ensures Doubled(a, k) == 2 * Doubled(a, k - 1) && Doubled(b, k) == 2 * Doubled(b, k - 1)
    ensures Doubled(c, k) == 2 * Doubled(c, k - 1) && Pow2(k) == 2 * Pow2(k - 1)
  {
  }

  lemma OctetsSplit(n: nat, a: nat, x: Octet, b: nat, y: Octet)
    ensures XorBits(n + 8, 256 * a + x, 256 * b + y) == 256 * XorBits(n, a, b) + Xor(x, y)
  {
    hide XorBits;
    XorBound(8, x, y);
    XorBitsSplit(n, 8, a, x, b, y);
    Doubled8(a);
    Doubled8(b);
    Doubled8(XorBits(n, a, b));
  }

  lemma Doubled8(a: nat)
    ensures Doubled(a, 8) == 256 * a
  {
    assert Doubled(a, 4) == 2 * Doubled(a, 3) == 4 * Doubled(a, 2) == 8 * Doubled(a, 1) == 16 * a;
    assert Doubled(a, 8) == 2 * Doubled(a, 7) == 4 * Doubled(a, 6) == 8 * Doubled(a, 5) == 16 * Doubled(a, 4);
  }

  /** The number of an exclusive or is the exclusive or of the numbers. */
  lemma {:induction false} ValueOfXor(a: Bytes, b: Bytes)
    requires |a| == |b|
    ensures Value(XorAll(a, b)) == XorBits(8 * |a|, Value(a), Value(b))
    decreases |a|
  {
    hide XorBits, Xor, XorAll;
    if a == [] {
      NoBits();
      assert XorAll(a, b) == [];
    } else {
      var n := |a| - 1;
      ValueOfXor(a[..n], b[..n]);
      LastXor(a, b);
      OctetsSplit(8 * n, Value(a[..n]), a[n], Value(b[..n]), b[n]);
    }
  }

  lemma LastXor(a: Bytes, b: Bytes)
    requires |a| == |b| > 0
    ensures var n := |a| - 1;
            && |XorAll(a, b)| == n + 1 && XorAll(a, b)[..n] == XorAll(a[..n], b[..n]) && XorAll(a, b)[n] == Xor(a[n], b[n])
  {
    hide Xor;
  }

  lemma NoBits()
    ensures XorBits(0, 0, 0) == 0
  {
  }
}
