/**
 Counter-mode initialisation vectors (srtputils.cpp, CountIV and DeHex) and the
 octets the roll-over counter contributes to the authenticated data
 (srtpcryptohandlersrtp.cpp).  Both print a number in hexadecimal and turn the
 digits back into octets.
 */
module InitVector {
  import opened Machine
  import opened Octets
  import opened Outcomes
  import opened CounterMode

  /** AppendNumUC(n, EHex): the shortest row of hexadecimal digits, as digit values. */
  function HexDigits(n: nat): (d: seq<nat>)
    ensures 0 < |d| && forall i | 0 <= i < |d| :: d[i] < 16
  {
    if n < 16 then [n] else HexDigits(n / 16) + [n % 16]
  }

  /** DeHex: an odd first digit alone, then two digits to an octet. */
  function DeHex(digits: seq<nat>): Bytes
    requires forall i | 0 <= i < |digits| :: digits[i] < 16
  {
    if |digits| % 2 == 1 then [digits[0]] + DeHexPairs(digits[1..]) else DeHexPairs(digits)
  }

  function DeHexPairs(digits: seq<nat>): Bytes
    requires forall i | 0 <= i < |digits| :: digits[i] < 16
    requires |digits| % 2 == 0
  {
    if digits == [] then [] else [digits[0] * 16 + digits[1]] + DeHexPairs(digits[2..])
  }

  lemma {:induction false} ValueOfZerosThen(n: nat, b: Bytes)
    ensures Value(Zeros(n) + b) == Value(b)
  {
    if b == [] {
      assert Zeros(n) + b == Zeros(n);
      if n > 0 {
        assert Zeros(n)[..n - 1] == Zeros(n - 1);
        ValueOfZerosThen(n - 1, []);
        assert Zeros(n - 1) + [] == Zeros(n - 1);
      }
    } else {
      ValueOfZerosThen(n, b[..|b| - 1]);
      assert (Zeros(n) + b)[..n + |b| - 1] == Zeros(n) + b[..|b| - 1];
    }
  }

  /** v followed by n zero octets. */
  function Shifted(v: nat, n: nat): nat {
    if n == 0 then v else 256 * Shifted(v, n - 1)
  }

  lemma {:induction false} ValueThenZeros(b: Bytes, n: nat)
    ensures Value(b + Zeros(n)) == Shifted(Value(b), n)
  {
    hide Value;
    if n == 0 {
      assert b + Zeros(0) == b;
    } else {
      ValueThenZeros(b, n - 1);
      assert b + Zeros(n) == (b + Zeros(n - 1)) + [0];
      ValueAppend(b + Zeros(n - 1), 0);
    }
  }

  lemma ShiftedByTwoAndEight(v: nat)
    ensures Shifted(v, 2) == v * 0x1_0000
    ensures Shifted(v, 8) == v * 0x1_0000_0000_0000_0000
  {
    assert Shifted(v, 2) == 256 * Shifted(v, 1) == 65536 * Shifted(v, 0);
    assert Shifted(v, 4) == 256 * Shifted(v, 3) == 65536 * Shifted(v, 2);
    assert Shifted(v, 6) == 256 * Shifted(v, 5) == 65536 * Shifted(v, 4);
    assert Shifted(v, 8) == 256 * Shifted(v, 7) == 65536 * Shifted(v, 6);
  }

  lemma {:induction false} DeHexPairsAppend(d: seq<nat>, x: nat, y: nat)
    requires forall i | 0 <= i < |d| :: d[i] < 16
    requires |d| % 2 == 0 && x < 16 && y < 16
    ensures DeHexPairs(d + [x, y]) == DeHexPairs(d) + [x * 16 + y]
  {
    if d == [] {
      assert d + [x, y] == [x, y];
    } else {
      DeHexPairsAppend(d[2..], x, y);
      assert (d + [x, y])[2..] == d[2..] + [x, y];
    }
  }

  lemma DeHexAppend(d: seq<nat>, x: nat, y: nat)
    requires forall i | 0 <= i < |d| :: d[i] < 16
    requires x < 16 && y < 16
    ensures DeHex(d + [x, y]) == DeHex(d) + [x * 16 + y]
  {
    if |d| % 2 == 1 {
      DeHexPairsAppend(d[1..], x, y);
      assert (d + [x, y])[1..] == d[1..] + [x, y];
    } else {
      DeHexPairsAppend(d, x, y);
    }
  }

  /** The last two digits of a number are its last octet. */
  lemma HexDigitsSplit(n: nat)
    requires n >= 16
    ensures HexDigits(n) == (if n < 256 then [] else HexDigits(n / 256)) + [n / 16 % 16, n % 16]
  {
    assert HexDigits(n) == HexDigits(n / 16) + [n % 16];
    if n >= 256 {
      assert HexDigits(n / 16) == HexDigits(n / 16 / 16) + [n / 16 % 16];
      assert n / 16 / 16 == n / 256;
    }
  }

  lemma FewDigits(n: nat)
    requires n < 16
    ensures HexDigits(n) == [n] && DeHex([n]) == [n] && Value([n]) == n
    ensures DeHex([]) == [] && Value([]) == 0
  {
    assert [n][1..] == [] && [n][..0] == [];
  }

  /** Printing and reading back spells the same number, and in as few octets as it needs. */
  lemma {:induction false} DeHexOfHex(n: nat)
    ensures Value(DeHex(HexDigits(n))) == n
    ensures 0 < |DeHex(HexDigits(n))| <= (|HexDigits(n)| + 1) / 2
    decreases n
  {
    hide HexDigits, DeHex, DeHexPairs, Value;
    if n < 16 {
      FewDigits(n);
    } else {
      if n >= 256 {
        DeHexOfHex(n / 256);
      } else {
        FewDigits(0);
      }
      HexDigitsSplit(n);
      TwoDigits(n);
      TwoDigitsMore(if n < 256 then [] else HexDigits(n / 256), n / 16 % 16, n % 16);
    }
  }

  lemma TwoDigits(n: nat)
    ensures 256 * (n / 256) + (n / 16 % 16 * 16 + n % 16) == n
  {
    assert n / 16 == 16 * (n / 16 / 16) + n / 16 % 16;
    assert n / 16 / 16 == n / 256;
  }

  /** What the last two digits add to the number the others spell. */
  lemma TwoDigitsMore(d: seq<nat>, x: nat, y: nat)
    requires x < 16 && y < 16 && forall i | 0 <= i < |d| :: d[i] < 16
    requires |DeHex(d)| <= (|d| + 1) / 2
    ensures Value(DeHex(d + [x, y])) == 256 * Value(DeHex(d)) + (x * 16 + y)
    ensures 0 < |DeHex(d + [x, y])| <= (|d + [x, y]| + 1) / 2
  {
    hide DeHex, DeHexPairs, Value;
    DeHexAppend(d, x, y);
    ValueAppend(DeHex(d), x * 16 + y);
  }

  lemma {:induction false} HexDigitsShort(n: nat, k: nat)
    requires n < Pow2(4 * k) && 0 < k
    ensures |HexDigits(n)| <= k
  {
    var m := 4 * k - 4;
    assert Pow2(m + 4) == 2 * Pow2(m + 3) == 4 * Pow2(m + 2) == 8 * Pow2(m + 1) == 16 * Pow2(m);
    if k > 1 && n >= 16 {
      HexDigitsShort(n / 16, k - 1);
    }
  }

  // ----- CountIV -----

  function PadLeft(b: Bytes): (r: Block)
    requires |b| <= 16
  {
    Zeros(16 - |b|) + b
  }

  function SaltTerm(salt: Bytes): Block
    requires |salt| <= 16
  {
    salt + Zeros(16 - |salt|)
  }

  function SsrcTerm(ssrc: u32): Block {
    DeHexOfHex(ssrc);
    PowersOf2();
    HexDigitsShort(ssrc, 8);
    PadLeft(DeHex(HexDigits(ssrc)) + Zeros(8))
  }

  function IndexTerm(index: u64): Block {
    DeHexOfHex(index);
    PowersOf2();
    HexDigitsShort(index, 16);
    PadLeft(DeHex(HexDigits(index)) + Zeros(2))
  }

  lemma PowersOf2()
    ensures Pow2(4 * 8) == 0x1_0000_0000
    ensures Pow2(4 * 16) == 0x1_0000_0000_0000_0000
    ensures Pow2(8 * 2) == 0x1_0000
  {
    Pow2Adds(8, 8);
    Pow2Adds(16, 16);
    Pow2Adds(32, 32);
    assert Pow2(8) == 256;
  }

  lemma {:induction false} Pow2Adds(a: nat, b: nat)
    ensures Pow2(a + b) == Pow2(a) * Pow2(b)
  {
    if b > 0 {
      Pow2Adds(a, b - 1);
    }
  }

  function CountIV(salt: Bytes, ssrc: u32, index: u64): Block
    requires |salt| <= 16
  {
    XorAll(IndexTerm(index), XorAll(SaltTerm(salt), SsrcTerm(ssrc)))
  }

  /** A printed number followed by zeros, right-aligned in a block. */
  lemma PaddedValue(n: nat, zeros: nat)
    requires |DeHex(HexDigits(n))| + zeros <= 16
    ensures Value(PadLeft(DeHex(HexDigits(n)) + Zeros(zeros))) == Shifted(n, zeros)
  {
    var b := DeHex(HexDigits(n)) + Zeros(zeros);
    DeHexOfHex(n);
    ValueThenZeros(DeHex(HexDigits(n)), zeros);
    ValueOfZerosThen(16 - |b|, b);
  }

  /** Section 4.1.1 of RFC 3711: the IV is the exclusive or of k_s * 2^16, SSRC * 2^64 and
      i * 2^16, for a 112-bit salting key. */
  lemma IvTerms(salt: Bytes, ssrc: u32, index: u64)
    requires |salt| == 14
    ensures Value(SaltTerm(salt)) == Value(salt) * 0x1_0000
    ensures Value(SsrcTerm(ssrc)) == ssrc * 0x1_0000_0000_0000_0000
    ensures Value(IndexTerm(index)) == index * 0x1_0000
  {
    PowersOf2();
    ValueThenZeros(salt, 2);
    ShiftedByTwoAndEight(Value(salt));
    ShiftedByTwoAndEight(ssrc);
    ShiftedByTwoAndEight(index);
    PaddedValue(ssrc, 8) by { DeHexOfHex(ssrc); HexDigitsShort(ssrc, 8); }
    PaddedValue(index, 2) by { DeHexOfHex(index); HexDigitsShort(index, 16); }
  }

  /** Different indices give different initialisation vectors. */
  lemma IvDistinct(salt: Bytes, ssrc: u32, i: u64, j: u64)
    requires |salt| == 14
    ensures CountIV(salt, ssrc, i) == CountIV(salt, ssrc, j) <==> i == j
  {
    if CountIV(salt, ssrc, i) == CountIV(salt, ssrc, j) {
      XorAllInjective(IndexTerm(i), IndexTerm(j), XorAll(SaltTerm(salt), SsrcTerm(ssrc)));
      IvTerms(salt, ssrc, i);
      IvTerms(salt, ssrc, j);
    }
  }

  /** Section 4.1.1 of RFC 3711 as one formula, bit by bit: the IV, read as a number, is the exclusive or of
      k_s * 2^16, SSRC * 2^64 and i * 2^16. */
  lemma IvBits(salt: Bytes, ssrc: u32, index: u64, k: nat)
    requires |salt| == 14 && k < 128
    ensures Bit(Value(CountIV(salt, ssrc, index)), k) ==
            (Bit(Value(salt) * 0x1_0000, k) + Bit(ssrc * 0x1_0000_0000_0000_0000, k) + Bit(index * 0x1_0000, k)) % 2
  {
    hide IndexTerm, SsrcTerm, SaltTerm, XorAll, XorBits, Value, Bit;
    IvTerms(salt, ssrc, index);
    var inner := XorAll(SaltTerm(salt), SsrcTerm(ssrc));
    ValueOfXor(SaltTerm(salt), SsrcTerm(ssrc));
    ValueOfXor(IndexTerm(index), inner);
    XorBitsDiffer(128, Value(SaltTerm(salt)), Value(SsrcTerm(ssrc)), k);
    XorBitsDiffer(128, Value(IndexTerm(index)), Value(inner), k);
    BitIsBinary(Value(salt) * 0x1_0000, k);
    BitIsBinary(ssrc * 0x1_0000_0000_0000_0000, k);
    BitIsBinary(index * 0x1_0000, k);
  }

  /** The last two octets of every vector are zero: they are the block counter. */
  lemma IvBlockCounterZero(salt: Bytes, ssrc: u32, i: u64)
    requires |salt| == 14
    ensures CountIV(salt, ssrc, i)[14] == 0 && CountIV(salt, ssrc, i)[15] == 0
  {
    DeHexOfHex(ssrc);
    DeHexOfHex(i);
  }

  /** Under 2^48 an index fills the octets 8 to 13 at most, and the SSRC the octets 4 to 7. */
  lemma TermsApart(ssrc: u32, index: u64)
    requires index < 0x1_0000_0000_0000
    ensures forall k | 0 <= k < 8 :: IndexTerm(index)[k] == 0
    ensures forall k | 8 <= k < 16 :: SsrcTerm(ssrc)[k] == 0
  {
    hide HexDigits, DeHex;
    DeHexOfHex(ssrc);
    DeHexOfHex(index);
    Pow2Of48();
    HexDigitsShort(index, 12);
  }

  lemma Pow2Of48()
    ensures Pow2(4 * 12) == 0x1_0000_0000_0000
  {
    PowersOf2();
    Pow2Adds(32, 16);
  }

  lemma SameFrom(x: Octet, y: Octet, z: Octet)
    ensures Xor(x, z) == Xor(y, z) ==> x == y
    ensures Xor(z, x) == Xor(z, y) ==> x == y
  {
    XorCancel(x, z);
    XorCancel(y, z);
    XorCommutes(z, x);
    XorCommutes(z, y);
  }

  lemma OctetOfIv(salt: Bytes, ssrc: u32, index: u64, k: nat)
    requires |salt| == 14 && k < 16
    ensures CountIV(salt, ssrc, index)[k] == Xor(IndexTerm(index)[k], Xor(SaltTerm(salt)[k], SsrcTerm(ssrc)[k]))
  {
    hide IndexTerm, SsrcTerm, SaltTerm, Xor;
  }

  /** Streams under one key: vectors are equal only for the same source and the same index. */
  lemma IvDistinctAcrossSources(salt: Bytes, s: u32, i: u64, t: u32, j: u64)
    requires |salt| == 14 && i < 0x1_0000_0000_0000 && j < 0x1_0000_0000_0000
    ensures CountIV(salt, s, i) == CountIV(salt, t, j) <==> s == t && i == j
  {
    hide CountIV, IndexTerm, SsrcTerm, SaltTerm, Xor;
    if CountIV(salt, s, i) == CountIV(salt, t, j) {
      TermsApart(s, i);
      TermsApart(t, j);
      forall k | 0 <= k < 16 ensures SsrcTerm(s)[k] == SsrcTerm(t)[k] && IndexTerm(i)[k] == IndexTerm(j)[k] {
        OctetOfIv(salt, s, i, k);
        OctetOfIv(salt, t, j, k);
        SameFrom(Xor(SaltTerm(salt)[k], SsrcTerm(s)[k]), Xor(SaltTerm(salt)[k], SsrcTerm(t)[k]), 0);
        SameFrom(SsrcTerm(s)[k], SsrcTerm(t)[k], SaltTerm(salt)[k]);
        SameFrom(IndexTerm(i)[k], IndexTerm(j)[k], Xor(SaltTerm(salt)[k], 0));
      }
      assert SsrcTerm(s) == SsrcTerm(t) && IndexTerm(i) == IndexTerm(j);
      IvTerms(salt, s, i);
      IvTerms(salt, t, j);
    }
  }

  /** Nor is a key stream block shared between streams under one key. */
  lemma StreamsNeverMeet(salt: Bytes, s: u32, i: u64, a: nat, t: u32, j: u64, b: nat)
    requires |salt| == 14 && i < 0x1_0000_0000_0000 && j < 0x1_0000_0000_0000 && a < 0x1_0000 && b < 0x1_0000
    ensures Counter(CountIV(salt, s, i), a) == Counter(CountIV(salt, t, j), b) <==> s == t && i == j && a == b
  {
    hide CountIV, Counter;
    IvBlockCounterZero(salt, s, i);
    IvBlockCounterZero(salt, t, j);
    CountersOfVectors(CountIV(salt, s, i), a, CountIV(salt, t, j), b);
    IvDistinctAcrossSources(salt, s, i, t, j);
  }

  /** Counters of vectors that end in two zero octets. */
  lemma CountersOfVectors(x: Block, a: nat, y: Block, b: nat)
    requires x[14] == x[15] == y[14] == y[15] == 0 && a < 0x1_0000 && b < 0x1_0000
    ensures Counter(x, a) == Counter(y, b) <==> x == y && a == b
  {
    hide Counter;
    CounterWithoutCarry(x, a);
    CounterWithoutCarry(y, b);
    if Counter(x, a) == Counter(y, b) {
      assert x == x[..14] + [0, 0] && y == y[..14] + [0, 0];
      assert x[..14] == Counter(x, a)[..14] == Counter(y, b)[..14] == y[..14];
      assert Write16(a) == Counter(x, a)[14..] == Counter(y, b)[14..] == Write16(b);
      assert a == Write16(a)[0] as int * 0x100 + Write16(a)[1] as int;
    }
  }

  /** No key stream block is ever used twice under one key: two counter blocks are equal only
      when they are the same block of the same packet.  (A packet has at most 2^16 blocks.) */
  lemma CounterBlocksNeverMeet(salt: Bytes, ssrc: u32, i: u64, a: nat, j: u64, b: nat)
    requires |salt| == 14 && a < 0x1_0000 && b < 0x1_0000
    ensures Counter(CountIV(salt, ssrc, i), a) == Counter(CountIV(salt, ssrc, j), b) <==> i == j && a == b
  {
    hide CountIV, Counter;
    IvBlockCounterZero(salt, ssrc, i);
    IvBlockCounterZero(salt, ssrc, j);
    CountersOfVectors(CountIV(salt, ssrc, i), a, CountIV(salt, ssrc, j), b);
    IvDistinct(salt, ssrc, i, j);
  }

  /** The IV leaves room for 2^16 blocks: as a number, the counter of block n is the IV plus n. */
  lemma CounterIsSum(salt: Bytes, ssrc: u32, index: u64, n: nat)
    requires |salt| == 14 && n < 0x1_0000
    ensures Value(Counter(CountIV(salt, ssrc, index), n)) == Value(CountIV(salt, ssrc, index)) + n
  {
    hide CountIV, Counter, Value;
    var iv := CountIV(salt, ssrc, index);
    IvBlockCounterZero(salt, ssrc, index);
    CounterWithoutCarry(iv, n);
    assert Counter(iv, n) == iv[..14] + [n / 0x100] + [n % 0x100];
    assert iv == iv[..14] + [0] + [0];
    ValueAppend(iv[..14], n / 0x100);
    ValueAppend(iv[..14] + [n / 0x100], n % 0x100);
    ValueAppend(iv[..14], 0);
    ValueAppend(iv[..14] + [0], 0);
  }

  lemma CounterWithoutCarry(iv: Block, n: nat)
    requires iv[14] == 0 && iv[15] == 0 && n < 0x1_0000
    ensures Counter(iv, n) == iv[..14] + Write16(n)
  {
    var high := Read16(iv, 12);
    var low := ToU32(Read32(iv, 12) as int + n);
    assert low == high as int * 0x1_0000 + n;
    assert low / 0x1_0000 == high && low % 0x1_0000 == n;
    Write16Read16(iv, 12);
    assert iv[..12] + (iv[12..14] + Write16(n)) == iv[..14] + Write16(n);
  }

  // ----- The roll-over counter in the authenticated data -----

  /** The octets appended for the counter before the authentication tag is computed.  They go
      into an 8-octet descriptor; the padding loop counts to 4 - size in unsigned arithmetic,
      so with five or more digits it runs on until the descriptor panics. */
  function RocOctets(roc: u32): Option<Bytes> {
    var digits := HexDigits(roc);
    if |digits| <= 4 then Some(DeHex(digits) + Zeros(4 - |digits|)) else None
  }

  /** There are octets exactly for counters below 2^16. */
  lemma RocOctetsDefined(roc: u32)
    ensures RocOctets(roc).Some? <==> roc < 0x1_0000
  {
    if roc < 0x1_0000 {
      HexDigitsShort(roc, 4) by { PowersOf2(); }
    } else {
      assert |HexDigits(roc)| == |HexDigits(roc / 16)| + 1 == |HexDigits(roc / 256)| + 2;
      assert |HexDigits(roc / 256)| == |HexDigits(roc / 4096)| + 1 >= |HexDigits(roc / 65536)| + 2;
    }
  }

  /** The octets, digit by digit: the number in as few octets as its digits need, then one zero octet for each
      digit missing from four. */
  lemma RocOctetsSpell(roc: u32)
    requires roc < 0x1_0000
    ensures RocOctets(roc) == Some(if roc < 0x10 then [roc, 0, 0, 0]
                                   else if roc < 0x100 then [roc, 0, 0]
                                   else if roc < 0x1000 then [roc / 0x100, roc % 0x100, 0]
                                   else [roc / 0x100, roc % 0x100])
  {
    FourDigits(roc);
    FewZeros();
    hide HexDigits, DeHex, Zeros;
    PairsOf(roc / 0x1000, roc / 0x100 % 0x10, roc / 0x10 % 0x10, roc % 0x10);
    OctetsOfDigits(roc);
    assert forall x: Octet, y: Octet ::
        && [x] + [0, 0, 0] == [x, 0, 0, 0] && [x] + [0, 0] == [x, 0, 0]
        && [x, y] + [0] == [x, y, 0] && [x, y] + [] == [x, y];
  }

  lemma OctetsOfDigits(n: nat)
    requires n < 0x1_0000
    ensures n / 0x10 % 0x10 * 16 + n % 0x10 == n % 0x100
    ensures n / 0x1000 * 16 + n / 0x100 % 0x10 == n / 0x100
    ensures n < 0x1000 ==> n / 0x100 % 0x10 == n / 0x100
    ensures n < 0x100 ==> n / 0x10 % 0x10 == n / 0x10 && n % 0x100 == n
  {
    assert n / 0x10 == 0x10 * (n / 0x10 / 0x10) + n / 0x10 % 0x10 && n / 0x10 / 0x10 == n / 0x100;
    assert n / 0x100 == 0x10 * (n / 0x100 / 0x10) + n / 0x100 % 0x10 && n / 0x100 / 0x10 == n / 0x1000;
  }

  lemma FewZeros()
    ensures Zeros(0) == [] && Zeros(1) == [0] && Zeros(2) == [0, 0] && Zeros(3) == [0, 0, 0]
  {
  }

  lemma FourDigits(n: nat)
    requires n < 0x1_0000
    ensures HexDigits(n) == if n < 0x10 then [n]
                            else if n < 0x100 then [n / 0x10, n % 0x10]
                            else if n < 0x1000 then [n / 0x100, n / 0x10 % 0x10, n % 0x10]
                            else [n / 0x1000, n / 0x100 % 0x10, n / 0x10 % 0x10, n % 0x10]
  {
    assert n >= 0x10 ==> HexDigits(n) == HexDigits(n / 0x10) + [n % 0x10];
    assert n >= 0x100 ==> HexDigits(n / 0x10) == HexDigits(n / 0x10 / 0x10) + [n / 0x10 % 0x10];
    assert n >= 0x1000 ==> HexDigits(n / 0x10 / 0x10) == HexDigits(n / 0x10 / 0x10 / 0x10) + [n / 0x10 / 0x10 % 0x10];
    assert n / 0x10 / 0x10 == n / 0x100 && n / 0x100 / 0x10 == n / 0x1000;
  }

  lemma PairsOf(a: nat, b: nat, c: nat, d: nat)
    requires a < 16 && b < 16 && c < 16 && d < 16
    ensures DeHex([d]) == [d] && DeHex([c, d]) == [c * 16 + d]
    ensures DeHex([b, c, d]) == [b, c * 16 + d] && DeHex([a, b, c, d]) == [a * 16 + b, c * 16 + d]
  {
    assert [d][1..] == [] && [c, d][2..] == [] && [b, c, d][1..] == [c, d] && [a, b, c, d][2..] == [c, d];
  }

  /** Section 4.2 of RFC 3711 appends ROC as 32 bits.  The code appends exactly those four
      octets only for ROC = 0. */
  lemma RocOctetsAreBigEndianRoc(roc: u32)
    ensures RocOctets(roc) == Some(Write32(roc)) <==> roc == 0
  {
    RocOctetsDefined(roc);
    if roc < 16 {
      assert DeHex([roc]) == [roc];
      assert RocOctets(roc) == Some([roc] + Zeros(3));
      assert ([roc] + Zeros(3))[0] == roc;
      assert Write32(roc) == [0, 0, 0, roc];
      if roc == 0 {
        assert [roc] + Zeros(3) == Write32(roc);
      }
    } else if roc < 0x1_0000 {
      DeHexOfHex(roc);
      assert |HexDigits(roc)| >= 2;
      assert |RocOctets(roc).value| <= (|HexDigits(roc)| + 1) / 2 + 4 - |HexDigits(roc)|;
    }
  }
}
