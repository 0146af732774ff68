/**
 AES in counter mode (srtpaesctrcrypto.cpp).  The block cipher is a parameter: any
 function from a 16-octet key and a 16-octet block to a 16-octet block.
 */
module CounterMode {
  import opened Machine
  import opened Octets
  import opened Outcomes

  type Block = b: Bytes | |b| == 16 witness Zeros(16)
  type BlockCipher = (Block, Block) -> Block

  const KSRTPMaxTextLength := 0x40000
  const KSRTPMaxKeyStreamBlocks := 0x10000

  // ----- Counters -----

  /** The n-th counter: only the last four octets move, modulo 2^32. */
  function Counter(iv: Block, n: nat): Block {
    iv[..12] + Write32(ToU32(Read32(iv, 12) as int + n))
  }

  lemma CounterStart(iv: Block)
    ensures Counter(iv, 0) == iv
  {
    hide Read32, Write32;
    Write32Read32(iv, 12);
  }

  lemma CounterStep(iv: Block, n: nat)
    ensures Counter(Counter(iv, n), 1) == Counter(iv, n + 1)
  {
    hide Read32, Write32;
    var start := Read32(iv, 12);
    var low := ToU32(start as int + n);
    assert Read32(Counter(iv, n), 12) == low by {
      Read32Write32(iv[..12], low, []);
      assert iv[..12] + Write32(low) + [] == Counter(iv, n);
    }
    assert ToU32(low as int + 1) == ToU32(start as int + (n + 1));
    assert Counter(iv, n)[..12] == iv[..12];
  }

  /** Successive counters differ only in the low 32 bits, and 2^32 of them are distinct. */
  lemma CountersDistinct(iv: Block, a: u32, b: u32)
    ensures Counter(iv, a)[..12] == Counter(iv, b)[..12] == iv[..12]
    ensures Counter(iv, a) == Counter(iv, b) <==> a == b
  {
    hide Read32, Write32;
    var la, lb := ToU32(Read32(iv, 12) as int + a), ToU32(Read32(iv, 12) as int + b);
    Read32Write32(iv[..12], la, []);
    Read32Write32(iv[..12], lb, []);
    assert iv[..12] + Write32(la) + [] == Counter(iv, a);
    assert iv[..12] + Write32(lb) + [] == Counter(iv, b);
  }

  /** Read as numbers: the last four octets count up modulo 2^32, and the others stay. */
  lemma CounterSpells(iv: Block, n: nat)
    ensures Counter(iv, n)[..12] == iv[..12]
    ensures Value(Counter(iv, n)[12..]) == (Value(iv[12..]) + n) % 0x1_0000_0000
  {
    hide Read32, Write32, Value;
    var low := ToU32(Read32(iv, 12) as int + n);
    assert Counter(iv, n) == iv[..12] + Write32(low) + [];
    Read32Write32(iv[..12], low, []);
    ReadSpells(iv, 12);
    ReadSpells(Counter(iv, n), 12);
    assert iv[12..16] == iv[12..] && Counter(iv, n)[12..16] == Counter(iv, n)[12..];
  }

  lemma SameCounter(a: Block, b: Block)
    requires a[..12] == b[..12] && Value(a[12..]) == Value(b[12..])
    ensures a == b
  {
    hide Read32, Write32, Value;
    ReadSpells(a, 12);
    ReadSpells(b, 12);
    assert a[12..16] == a[12..] && b[12..16] == b[12..];
    Write32Read32(a, 12);
    Write32Read32(b, 12);
    assert a == a[..12] + a[12..] && b == b[..12] + b[12..];
  }

  /** One more in the low 32 bits, carries included, is the next counter. */
  lemma NextCounter(was: Block, now: Block)
    requires now[..12] == was[..12]
    requires Read32(now, 12) == ToU32(Read32(was, 12) as int + 1)
    ensures now == Counter(was, 1)
  {
    hide Read32, Write32;
    Write32Read32(now, 12);
    assert now == now[..12] + now[12..16];
  }

  // ----- What the two operations compute -----

  /** The encrypted counters 0 .. count - 1. */
  function KeyBlocks(aes: BlockCipher, key: Block, iv: Block, count: nat): (r: Bytes)
    ensures |r| == 16 * count
  {
    if count == 0 then [] else KeyBlocks(aes, key, iv, count - 1) + aes(key, Counter(iv, count - 1))
  }

  function BlocksFor(octets: nat): (n: nat)
    ensures octets <= 16 * n < octets + 16
  {
    octets / 16 + if octets % 16 == 0 then 0 else 1
  }

  /** The first octets of the key stream. */
  function Stream(aes: BlockCipher, key: Block, iv: Block, octets: nat): (r: Bytes)
    ensures |r| == octets
  {
    KeyBlocks(aes, key, iv, BlocksFor(octets))[..octets]
  }

  function Keystream(aes: BlockCipher, bits: u32, key: Bytes, iv: Bytes): Result<Bytes> {
    if |key| != 16 || |iv| != 16 || bits / 128 > KSRTPMaxKeyStreamBlocks then Leave(Argument)
    else Ok(Stream(aes, key, iv, bits / 8 + if bits % 8 == 0 then 0 else 1))
  }

  function Encrypt(aes: BlockCipher, key: Bytes, iv: Bytes, src: Bytes): Result<Bytes> {
    if |key| != 16 || |iv| != 16 || |src| > KSRTPMaxTextLength then Leave(Argument)
    else Ok(XorAll(src, Stream(aes, key, iv, |src|)))
  }

  /** Encrypting is exclusive or with the key stream KeystreamL gives for 8 * |src| bits,
      for every text up to the limit, and encrypting twice gives the text back. */
  lemma EncryptIsXorWithKeystream(aes: BlockCipher, key: Block, iv: Block, src: Bytes)
    requires |src| <= KSRTPMaxTextLength
    ensures Keystream(aes, 8 * |src|, key, iv).Ok?
    ensures Encrypt(aes, key, iv, src) == Ok(XorAll(src, Keystream(aes, 8 * |src|, key, iv).value))
    ensures Encrypt(aes, key, iv, Encrypt(aes, key, iv, src).value) == Ok(src)
  {
    XorAllCancel(src, Stream(aes, key, iv, |src|));
  }

  lemma {:induction false} KeyBlocksAt(aes: BlockCipher, key: Block, iv: Block, count: nat, i: nat)
    requires i < 16 * count
    ensures KeyBlocks(aes, key, iv, count)[i] == aes(key, Counter(iv, i / 16))[i % 16]
  {
    hide Counter;
    var most := 16 * (count - 1);
    if i < most {
      KeyBlocksAt(aes, key, iv, count - 1, i);
    } else {
      LastBlock(count, i);
    }
  }

  lemma LastBlock(count: nat, i: nat)
    requires 16 * (count - 1) <= i < 16 * count
    ensures i / 16 == count - 1 && i % 16 == i - 16 * (count - 1)
  {
  }

  /**
   Section 4.1.1 of RFC 3711, octet by octet: bit k of octet i is flipped exactly if that bit is set in octet
   i mod 16 of the encrypted counter, and the counter is the IV with i / 16 added to its last 32 bits.
   */
  lemma EncryptedOctet(aes: BlockCipher, key: Block, iv: Block, src: Bytes, i: nat, counter: Block, k: nat)
    requires |src| <= KSRTPMaxTextLength && i < |src| && k < 8
    requires counter[..12] == iv[..12] && Value(counter[12..]) == (Value(iv[12..]) + i / 16) % 0x1_0000_0000
    ensures Encrypt(aes, key, iv, src).Ok? && |Encrypt(aes, key, iv, src).value| == |src|
    ensures Bit(Encrypt(aes, key, iv, src).value[i], k) ==
            if Bit(aes(key, counter)[i % 16], k) == 1 then 1 - Bit(src[i], k) else Bit(src[i], k)
  {
    hide Counter, Xor, Value, Bit;
    CounterSpells(iv, i / 16);
    SameCounter(counter, Counter(iv, i / 16));
    KeyBlocksAt(aes, key, iv, BlocksFor(|src|), i);
    var stream := Stream(aes, key, iv, |src|);
    assert stream[i] == aes(key, counter)[i % 16];
    XorDiffers(src[i], stream[i], k);
    BitIsBinary(src[i], k);
    BitIsBinary(stream[i], k);
  }

  /** The full 128-bit pieces, encrypted one by one. */
  function WholePieces(aes: BlockCipher, key: Block, iv: Block, src: Bytes, count: nat): (r: Bytes)
    requires 16 * count <= |src|
  {
    if count == 0 then []
    else WholePieces(aes, key, iv, src, count - 1) +
         XorAll(src[16 * (count - 1)..16 * count], aes(key, Counter(iv, count - 1)))
  }

  lemma {:induction false} WholePiecesAreXor(aes: BlockCipher, key: Block, iv: Block, src: Bytes, count: nat)
    requires 16 * count <= |src|
    ensures WholePieces(aes, key, iv, src, count) == XorAll(src[..16 * count], KeyBlocks(aes, key, iv, count))
  {
    if count > 0 {
      var x := count - 1;
      WholePiecesAreXor(aes, key, iv, src, x);
      XorAllConcat(src[..16 * x], src[16 * x..16 * count], KeyBlocks(aes, key, iv, x), aes(key, Counter(iv, x)));
      assert src[..16 * count] == src[..16 * x] + src[16 * x..16 * count];
    }
  }

  /** The key stream for the last, shorter piece of a text of n octets. */
  function LastPiece(aes: BlockCipher, key: Block, iv: Block, n: nat): (r: Bytes)
    ensures |r| == n % 16
  {
    if n % 16 == 0 then [] else aes(key, Counter(iv, n / 16))[..n % 16]
  }

  lemma StreamSplits(aes: BlockCipher, key: Block, iv: Block, n: nat)
    ensures Stream(aes, key, iv, n) == KeyBlocks(aes, key, iv, n / 16) + LastPiece(aes, key, iv, n)
  {
    var blocks := KeyBlocks(aes, key, iv, n / 16);
    if n % 16 == 0 {
      assert blocks[..n] == blocks == blocks + [];
    } else {
      var last := aes(key, Counter(iv, n / 16));
      assert KeyBlocks(aes, key, iv, n / 16 + 1) == blocks + last;
      assert (blocks + last)[..n] == blocks + last[..n % 16];
    }
  }

  /** The whole pieces and the shorter last one together are the encrypted text. */
  lemma EncryptInPieces(aes: BlockCipher, key: Block, iv: Block, src: Bytes)
    ensures var whole := |src| - |src| % 16;
            XorAll(src, Stream(aes, key, iv, |src|)) ==
            WholePieces(aes, key, iv, src, |src| / 16) + XorAll(src[whole..], LastPiece(aes, key, iv, |src|))
  {
    var whole := |src| - |src| % 16;
    WholePiecesAreXor(aes, key, iv, src, |src| / 16);
    StreamSplits(aes, key, iv, |src|);
    XorAllConcat(src[..whole], src[whole..], KeyBlocks(aes, key, iv, |src| / 16), LastPiece(aes, key, iv, |src|));
    assert src == src[..whole] + src[whole..];
  }

  // ----- CSrtpAESCTRCrypto -----

  class AesCtrCrypto {
    const aes: BlockCipher
    /** iKey: the key the cached encryptor was made from. */
    var key: Option<Block>
    /** iEncryptor, named by the key schedule inside it. */
    var encryptor: Option<Block>

    /** The cached encryptor always belongs to the remembered key. */
    ghost predicate Valid()
      reads this
    {
      encryptor.Some? ==> key == encryptor
    }

    constructor (aes: BlockCipher)
      ensures Valid() && this.aes == aes && encryptor == None
    {
      this.aes := aes;
      key, encryptor := None, None;
    }

    method CreateEncryptorL(aKey: Block)
      modifies this
      ensures Valid() && encryptor == Some(aKey)
    {
      encryptor := None;
      key := None;
      key := Some(aKey);
      encryptor := Some(aKey);
    }

    /** IncreaseIV, octet by octet as in the source. */
    static method IncreaseIV(iv: array<Octet>)
      requires iv.Length == 16
      modifies iv
      ensures iv[..] == Counter(old(iv[..]), 1)
    {
      ghost var was: Bytes := iv[..];
      if iv[15] != 0xFF {
        iv[15] := iv[15] + 1;
      } else if iv[14] != 0xFF {
        iv[15] := 0;
        iv[14] := iv[14] + 1;
      } else if iv[13] != 0xFF {
        iv[15] := 0;
        iv[14] := 0;
        iv[13] := iv[13] + 1;
      } else if iv[12] != 0xFF {
        iv[15] := 0;
        iv[14] := 0;
        iv[13] := 0;
        iv[12] := iv[12] + 1;
      } else {
        iv[15] := 0;
        iv[14] := 0;
        iv[13] := 0;
        iv[12] := 0;
      }
      assert iv[..12] == was[..12];
      NextCounter(was, iv[..]);
    }

    /** One piece of the key stream: the current counter encrypted, and the counter advanced. */
    method NextKeyBlock(iv: array<Octet>, aKey: Block, ghost aIV: Block, ghost x: nat) returns (data: Block)
      requires iv.Length == 16 && iv[..] == Counter(aIV, x)
      modifies iv
      ensures data == aes(aKey, Counter(aIV, x))
      ensures iv[..] == Counter(aIV, x + 1)
    {
      data := aes(aKey, iv[..]);
      CounterStep(aIV, x);
      IncreaseIV(iv);
    }

    method KeystreamL(bitLength: u32, aKey: Bytes, aIV: Bytes) returns (r: Result<Bytes>)
      ensures r == Keystream(aes, bitLength, aKey, aIV)
    {
      var buffLength := bitLength / 8;
      if bitLength % 8 != 0 {
        buffLength := buffLength + 1;
      }
      var count := bitLength / 128;
      if bitLength % 128 != 0 {
        count := count + 1;
      }
      if |aKey| != 16 {
        return Leave(Argument);
      }
      if |aIV| != 16 {
        return Leave(Argument);
      }
      if bitLength / 128 > KSRTPMaxKeyStreamBlocks {
        return Leave(Argument);
      }
      assert count == BlocksFor(buffLength);
      var iv := new Octet[16](i requires 0 <= i < 16 => aIV[i]);
      assert iv[..] == aIV;
      CounterStart(aIV);
      var output: Bytes := [];
      for x := 0 to count
        invariant output == KeyBlocks(aes, aKey, aIV, x)
        invariant iv[..] == Counter(aIV, x)
      {
        var data := NextKeyBlock(iv, aKey, aIV, x);
        output := output + data;
      }
      return Ok(output[..buffLength]);
    }

    method EncryptL(aKey: Bytes, aIV: Bytes, src: Bytes) returns (r: Result<Bytes>)
      requires Valid()
      modifies this
      ensures Valid()
      ensures r == Encrypt(aes, aKey, aIV, src)
      ensures r.Ok? ==> encryptor == Some(aKey)
      ensures r.Leave? ==> encryptor == old(encryptor)
    {
      if |aKey| != 16 {
        return Leave(Argument);
      }
      if |aIV| != 16 {
        return Leave(Argument);
      }
      if |src| > KSRTPMaxTextLength {
        return Leave(Argument);
      }
      var iv := new Octet[16](i requires 0 <= i < 16 => aIV[i]);
      assert iv[..] == aIV;
      var count := |src| / 16;
      if count > KSRTPMaxKeyStreamBlocks {
        return Leave(Argument);
      }
      if encryptor == None || key == None || key.value != aKey {
        CreateEncryptorL(aKey);
      }
      var output := TransformWholeBlocks(iv, aKey, aIV, src, count);
      if |src| % 16 != 0 {
        var data := aes(encryptor.value, iv[..]);
        var msg := XorLoop(src[16 * count..], data);
        output := output + msg;
      } else {
        assert output == output + XorAll(src[16 * count..], []);
      }
      EncryptInPieces(aes, aKey, aIV, src);
      return Ok(output);
    }

    /** The loop over the full 128-bit pieces of the source. */
    method TransformWholeBlocks(iv: array<Octet>, ghost aKey: Block, ghost aIV: Block, src: Bytes, count: nat)
      returns (output: Bytes)
      requires encryptor == Some(aKey) && iv.Length == 16 && iv[..] == aIV && 16 * count <= |src|
      modifies iv
      ensures output == WholePieces(aes, aKey, aIV, src, count)
      ensures iv[..] == Counter(aIV, count)
    {
      hide Counter, XorAll;
      CounterStart(aIV);
      output := [];
      for x := 0 to count
        invariant output == WholePieces(aes, aKey, aIV, src, x)
        invariant iv[..] == Counter(aIV, x)
      {
        var data := NextKeyBlock(iv, encryptor.value, aIV, x);
        assert data[..16] == data;
        var msg := XorLoop(src[16 * x..16 * x + 16], data);
        output := output + msg;
      }
    }

    /** The inner loops over a whole or a last, shorter piece of the message. */
    static method XorLoop(piece: Bytes, data: Block) returns (msg: Bytes)
      requires |piece| <= 16
      ensures msg == XorAll(piece, data[..|piece|])
    {
      msg := piece;
      for i := 0 to |piece|
        invariant |msg| == |piece|
        invariant msg[..i] == XorAll(piece[..i], data[..i]) && msg[i..] == piece[i..]
      {
        msg := msg[i := Xor(msg[i], data[i])];
      }
    }
  }
}
