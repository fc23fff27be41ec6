/**
 AES in counter mode (section 6.5 of NIST SP 800-38A) with an 8-byte nonce and a
 64-bit big-endian counter that wraps, as Web Crypto runs it for a counter length of 64.
 The block cipher itself is a parameter.
 */
module AesCtr {
  import opened Common

  const BLOCK: nat := 16
  const NONCE: nat := 8
  const AES_KEY_SIZE: nat := 32
  const TWO64: nat := 0x1_0000_0000_0000_0000

  type Block = b: seq<byte> | |b| == 16 witness seq(16, i => 0)

  /** Key and input block to output block. */
  type BlockCipher = (seq<byte>, Block) -> Block

  datatype CryptoError = InvalidKeySize | InvalidIvSize | InvalidInput

  // ---------------------------------------------------------------- exclusive or of bytes

  /** Exclusive or of the lowest n bits. */
  function XorBits(n: nat, a: nat, b: nat): (r: nat)
    ensures r < Pow2(n)
  {
    if n == 0 then 0 else 2 * XorBits(n - 1, a / 2, b / 2) + (a + b) % 2
  }

  lemma LastBit(high: nat, a: nat, b: nat)
    ensures var r := 2 * high + (a + b) % 2;
      r / 2 == high && (r + b) % 2 == a % 2
  {
  }

  lemma {:induction false} XorBitsTwice(n: nat, a: nat, b: nat)
    requires a < Pow2(n)
    ensures XorBits(n, XorBits(n, a, b), b) == a
  {
    if n > 0 {
      XorBitsTwice(n - 1, a / 2, b / 2);
      LastBit(XorBits(n - 1, a / 2, b / 2), a, b);
    }
  }

  function Xor(a: byte, b: byte): byte {
    assert Pow2(8) == 256;
    XorBits(8, a, b)
  }

  lemma XorTwice(a: byte, b: byte)
    ensures Xor(Xor(a, b), b) == a
  {
    assert Pow2(8) == 256;
    XorBitsTwice(8, a, b);
  }

  lemma {:induction false} XorBitsAt(n: nat, a: nat, b: nat, k: nat)
    requires k < n
    ensures XorBits(n, a, b) / Pow2(k) % 2 == (a / Pow2(k) + b / Pow2(k)) % 2
  {
    var high := XorBits(n - 1, a / 2, b / 2);
    LastBit(high, a, b);
    if k > 0 {
      XorBitsAt(n - 1, a / 2, b / 2, k - 1);
      DivTwice(XorBits(n, a, b), 2, Pow2(k - 1));
      DivTwice(a, 2, Pow2(k - 1));
      DivTwice(b, 2, Pow2(k - 1));
    }
  }

  lemma {:induction false} XorBitsZero(n: nat, b: nat)
    requires b < Pow2(n)
    ensures XorBits(n, 0, b) == b
  {
    if n > 0 {
      XorBitsZero(n - 1, b / 2);
    }
  }

  /** Bit by bit, one where exactly one of the two has a one. */
  lemma XorBit(a: byte, b: byte, k: nat)
    requires k < 8
    ensures Xor(a, b) / Pow2(k) % 2 == (a / Pow2(k) + b / Pow2(k)) % 2
  {
    XorBitsAt(8, a, b, k);
  }

  // ---------------------------------------------------------------- big-endian numbers

  /** `getBigUint64(0, false)` of eight bytes. */
  function FromBigEndian(bs: seq<byte>): nat {
    if bs == [] then 0 else FromBigEndian(bs[..|bs| - 1]) * 256 + bs[|bs| - 1]
  }

  /** The len lowest bytes of n, most significant first. */
  function BigEndian(n: nat, len: nat): (bs: seq<byte>)
    ensures |bs| == len
  {
    if len == 0 then [] else BigEndian(n / 256, len - 1) + [n % 256]
  }

  function Pow256(n: nat): (p: nat)
    ensures p > 0
  {
    if n == 0 then 1 else 256 * Pow256(n - 1)
  }

  lemma {:induction false} BigEndianInverse(n: nat, len: nat)
    requires n < Pow256(len)
    ensures FromBigEndian(BigEndian(n, len)) == n
  {
    if len > 0 {
      BigEndianInverse(n / 256, len - 1);
      assert BigEndian(n, len)[..len - 1] == BigEndian(n / 256, len - 1);
    }
  }

  lemma {:induction false} ZerosAreZero(bs: seq<byte>)
    requires AllZero(bs)
    ensures FromBigEndian(bs) == 0
  {
    if bs != [] {
      ZerosAreZero(bs[..|bs| - 1]);
    }
  }

  /** Byte m of n is its bits from 8 * (len - 1 - m) up. */
  lemma {:induction false} BigEndianAt(n: nat, len: nat, m: nat)
    requires m < len
    ensures BigEndian(n, len)[m] == n / Pow2(8 * (len - 1 - m)) % 256
  {
    if m < len - 1 {
      var p := Pow2(8 * (len - 2 - m));
      BigEndianAt(n / 256, len - 1, m);
      NextByte(len - 2 - m);
      DivTwice(n, 256, p);
    }
  }

  lemma NextByte(k: nat)
    ensures Pow2(8 * (k + 1)) == 256 * Pow2(8 * k)
  {
    var n := 8 * k;
    assert Pow2(n + 2) == 4 * Pow2(n);
    assert Pow2(n + 4) == 4 * Pow2(n + 2);
    assert Pow2(n + 6) == 4 * Pow2(n + 4);
  }

  // ---------------------------------------------------------------- counter mode

  /** The counter block i blocks after the initial one. */
  function CounterBlock(iv: Block, i: nat): Block {
    iv[..NONCE] + BigEndian((FromBigEndian(iv[NONCE..]) + i) % TWO64, 8)
  }

  /** What `crypto.subtle.encrypt` and `crypto.subtle.decrypt` compute. */
  function Ctr(aes: BlockCipher, key: seq<byte>, iv: Block, data: seq<byte>): (r: seq<byte>)
    ensures |r| == |data|
  {
    seq<byte>(|data|, j requires 0 <= j < |data| => Xor(data[j], aes(key, CounterBlock(iv, j / BLOCK))[j % BLOCK]))
  }

  /** The number in bytes 8 to 15, most significant first. */
  function CounterStart(iv: Block): (start: nat)
    ensures start ==
      iv[8] as nat * 0x100_0000_0000_0000 + iv[9] as nat * 0x1_0000_0000_0000
      + iv[10] as nat * 0x100_0000_0000 + iv[11] as nat * 0x1_0000_0000
      + iv[12] as nat * 0x100_0000 + iv[13] as nat * 0x1_0000 + iv[14] as nat * 0x100 + iv[15]
  {
    EightBytes(iv[NONCE..]);
    FromBigEndian(iv[NONCE..])
  }

  lemma EightBytes(bs: seq<byte>)
    requires |bs| == 8
    ensures FromBigEndian(bs) ==
      bs[0] as nat * 0x100_0000_0000_0000 + bs[1] as nat * 0x1_0000_0000_0000
      + bs[2] as nat * 0x100_0000_0000 + bs[3] as nat * 0x1_0000_0000
      + bs[4] as nat * 0x100_0000 + bs[5] as nat * 0x1_0000 + bs[6] as nat * 0x100 + bs[7]
  {
    FourBytes(bs);
    assert bs[..8] == bs;
    OneMoreByte(bs, 4);
    OneMoreByte(bs, 5);
    OneMoreByte(bs, 6);
    OneMoreByte(bs, 7);
  }

  lemma FourBytes(bs: seq<byte>)
    requires |bs| == 8
    ensures FromBigEndian(bs[..4]) ==
      bs[0] as nat * 0x100_0000 + bs[1] as nat * 0x1_0000 + bs[2] as nat * 0x100 + bs[3]
  {
    assert bs[..0] == [];
    OneMoreByte(bs, 0);
    OneMoreByte(bs, 1);
    OneMoreByte(bs, 2);
    OneMoreByte(bs, 3);
  }

  lemma OneMoreByte(bs: seq<byte>, n: nat)
    requires n < |bs|
    ensures FromBigEndian(bs[..n + 1]) == FromBigEndian(bs[..n]) * 256 + bs[n]
  {
    assert bs[..n + 1][..n] == bs[..n];
  }

  /** The bytes of a counter block: the nonce, then the wrapped counter with its most significant byte first. */
  lemma CounterBytes(iv: Block, i: nat, m: nat)
    requires m < 16
    ensures CounterBlock(iv, i)[m] ==
      if m < 8 then iv[m] else (CounterStart(iv) + i) % TWO64 / Pow2(8 * (15 - m)) % 256
  {
    assert CounterStart(iv) == FromBigEndian(iv[NONCE..]);
    if m >= 8 {
      BigEndianAt((CounterStart(iv) + i) % TWO64, 8, m - 8);
    }
  }

  /**
   Each byte of the data is combined bit by bit with its byte of the key stream: what the block cipher gives for the
   block's counter, whose bytes are the nonce and the wrapped number.
   */
  lemma KeyStream(aes: BlockCipher, key: seq<byte>, iv: Block, data: seq<byte>, j: nat, counter: Block)
    requires j < |data| && counter[..8] == iv[..8]
    requires forall m: nat {:trigger counter[m]} | 8 <= m < 16 ::
      counter[m] == (CounterStart(iv) + j / 16) % 0x1_0000_0000_0000_0000 / Pow2(8 * (15 - m)) % 256
    ensures data[j] == 0 ==> Ctr(aes, key, iv, data)[j] == aes(key, counter)[j % 16]
    ensures forall k: nat | k < 8 ::
      Ctr(aes, key, iv, data)[j] / Pow2(k) % 2 == (data[j] / Pow2(k) + aes(key, counter)[j % 16] / Pow2(k)) % 2
  {
    CounterIs(iv, j / 16, counter);
    StreamByte(data[j], aes(key, counter)[j % 16]);
  }

  lemma StreamByte(plain: byte, stream: byte)
    ensures Xor(0, stream) == stream
    ensures forall k: nat | k < 8 :: Xor(plain, stream) / Pow2(k) % 2 == (plain / Pow2(k) + stream / Pow2(k)) % 2
  {
    assert Pow2(8) == 256;
    XorBitsZero(8, stream);
    forall k: nat | k < 8
      ensures Xor(plain, stream) / Pow2(k) % 2 == (plain / Pow2(k) + stream / Pow2(k)) % 2
    {
      XorBit(plain, stream, k);
    }
  }

  lemma CounterIs(iv: Block, i: nat, counter: Block)
    requires counter[..8] == iv[..8]
    requires forall m: nat {:trigger counter[m]} | 8 <= m < 16 ::
      counter[m] == (CounterStart(iv) + i) % 0x1_0000_0000_0000_0000 / Pow2(8 * (15 - m)) % 256
    ensures counter == CounterBlock(iv, i)
  {
    forall m: nat | m < 16
      ensures counter[m] == CounterBlock(iv, i)[m]
    {
      CounterBytes(iv, i, m);
      assert m < 8 ==> counter[m] == counter[..8][m] && iv[m] == iv[..8][m];
    }
  }

  /** Decryption undoes encryption, at every length and for every counter start. */
  lemma CtrInverts(aes: BlockCipher, key: seq<byte>, iv: Block, data: seq<byte>)
    ensures Ctr(aes, key, iv, Ctr(aes, key, iv, data)) == data
  {
    forall j | 0 <= j < |data|
      ensures Ctr(aes, key, iv, Ctr(aes, key, iv, data))[j] == data[j]
    {
      XorTwice(data[j], aes(key, CounterBlock(iv, j / BLOCK))[j % BLOCK]);
    }
  }

  lemma AddWrapped(x: nat, i: nat)
    ensures (x % TWO64 + i) % TWO64 == (x + i) % TWO64
  {
    assert x + i == x % TWO64 + i + x / TWO64 * TWO64;
  }

  /** Moving the counter and then counting is counting from further on, across the wrap. */
  lemma CounterMoves(iv: Block, s: nat, i: nat)
    ensures CounterBlock(CounterBlock(iv, s), i) == CounterBlock(iv, s + i)
  {
    var base := FromBigEndian(iv[NONCE..]);
    var moved := CounterBlock(iv, s);
    assert moved[..NONCE] == iv[..NONCE];
    assert moved[NONCE..] == BigEndian((base + s) % TWO64, 8);
    assert Pow256(8) == TWO64;
    BigEndianInverse((base + s) % TWO64, 8);
    AddWrapped(base + s, i);
  }

  /** Processing a block-aligned slice from its own counter gives the slice of the whole. */
  lemma CtrSlice(aes: BlockCipher, key: seq<byte>, iv: Block, data: seq<byte>, s: nat, e: nat)
    requires s * BLOCK <= e <= |data|
    ensures Ctr(aes, key, CounterBlock(iv, s), data[s * BLOCK..e]) == Ctr(aes, key, iv, data)[s * BLOCK..e]
  {
    forall j | 0 <= j < e - s * BLOCK
      ensures Ctr(aes, key, CounterBlock(iv, s), data[s * BLOCK..e])[j] == Ctr(aes, key, iv, data)[s * BLOCK + j]
    {
      CounterMoves(iv, s, j / BLOCK);
      assert (s * BLOCK + j) / BLOCK == s + j / BLOCK && (s * BLOCK + j) % BLOCK == j % BLOCK;
    }
  }

  /** Bytes first..last of the data, as far as the data reaches. */
  function Range(data: seq<byte>, first: nat, last: int): (r: seq<byte>)
    requires first <= last + 1
    ensures last < |data| ==> r == data[first..last + 1]
    ensures first < |data| <= last ==> r == data[first..]
    ensures |data| <= first ==> r == []
  {
    if first >= |data| then [] else data[first..if last < |data| then last + 1 else |data|]
  }

  // ---------------------------------------------------------------- typed arrays

  /** `buffer.set(src, offset)` */
  method SetBytes(buffer: array<byte>, offset: nat, src: seq<byte>)
    requires offset + |src| <= buffer.Length
    modifies buffer
    ensures buffer[..] == old(buffer[..offset]) + src + old(buffer[offset + |src|..])
  {
    forall i | 0 <= i < |src| {
      buffer[offset + i] := src[i];
    }
  }

  /** A counter buffer: the nonce copied in, then the counter written as a wrapping 64-bit number. */
  method BuildCounter(nonce: seq<byte>, count: nat) returns (counter: array<byte>)
    requires |nonce| == NONCE
    ensures fresh(counter) && counter[..] == nonce + BigEndian(count % TWO64, 8)
  {
    counter := new byte[16](_ => 0);
    SetBytes(counter, 0, nonce);
    SetBytes(counter, NONCE, BigEndian(count % TWO64, 8));
  }

  // ---------------------------------------------------------------- the crypto package

  function EncryptAesCtr(aes: BlockCipher, plaintext: seq<byte>, key: seq<byte>, iv: seq<byte>)
    : (r: Result<seq<byte>, CryptoError>)
  {
    if |key| != AES_KEY_SIZE then Err(InvalidKeySize)
    else if |iv| != BLOCK then Err(InvalidIvSize)
    else Ok(Ctr(aes, key, iv, plaintext))
  }

  function DecryptAesCtr(aes: BlockCipher, ciphertext: seq<byte>, key: seq<byte>, iv: seq<byte>)
    : (r: Result<seq<byte>, CryptoError>)
  {
    if |key| != AES_KEY_SIZE then Err(InvalidKeySize)
    else if |iv| != BLOCK then Err(InvalidIvSize)
    else Ok(Ctr(aes, key, iv, ciphertext))
  }

  lemma DecryptInvertsEncrypt(aes: BlockCipher, plaintext: seq<byte>, key: seq<byte>, iv: seq<byte>)
    ensures var c := EncryptAesCtr(aes, plaintext, key, iv);
      if |key| == 32 && |iv| == 16
      then c == Ok(Ctr(aes, key, iv, plaintext)) && DecryptAesCtr(aes, c.value, key, iv) == Ok(plaintext)
      else
        c == DecryptAesCtr(aes, plaintext, key, iv) == Err(if |key| != 32 then InvalidKeySize else InvalidIvSize)
  {
    if |key| == AES_KEY_SIZE && |iv| == BLOCK {
      CtrInverts(aes, key, iv, plaintext);
    }
  }

  lemma SliceOfSlice(s: seq<byte>, lo: nat, hi: nat, first: nat, end: nat)
    requires lo <= first <= end <= hi <= |s|
    ensures s[lo..hi][first - lo..end - lo] == s[first..end]
  {
    var inner := s[lo..hi];
    forall k | 0 <= k < end - first
      ensures inner[first - lo..end - lo][k] == s[first..end][k]
    {
      assert inner[first - lo + k] == s[first + k];
    }
  }

  /** Decrypt from the start of a block on, with the counter of that block. */
  method DecryptBlocks(
    aes: BlockCipher, ciphertext: seq<byte>, key: seq<byte>, iv: Block, startBlock: nat, blockAlignedEnd: nat)
    returns (decrypted: seq<byte>)
    requires startBlock * BLOCK <= blockAlignedEnd <= |ciphertext|
    ensures decrypted == Ctr(aes, key, iv, ciphertext)[startBlock * BLOCK..blockAlignedEnd]
  {
    var counter := BuildCounter(iv[..NONCE], FromBigEndian(iv[NONCE..]) + startBlock);
    assert counter[..] == CounterBlock(iv, startBlock);
    decrypted := Ctr(aes, key, counter[..], ciphertext[startBlock * BLOCK..blockAlignedEnd]);
    CtrSlice(aes, key, iv, ciphertext, startBlock, blockAlignedEnd);
  }

  /** Random access: the requested bytes of the full decryption, clipped to the data. */
  method DecryptAesCtrRange(
    aes: BlockCipher, ciphertext: seq<byte>, key: seq<byte>, iv: seq<byte>, startByte: int, endByte: int)
    returns (r: Result<seq<byte>, CryptoError>)
    ensures r ==
      match DecryptAesCtr(aes, ciphertext, key, iv)
      case Err(e) => Err(e)
      case Ok(plain) => if 0 <= startByte <= endByte then Ok(Range(plain, startByte, endByte)) else Err(InvalidInput)
    ensures r.Ok? <==> |key| == 32 && |iv| == 16 && 0 <= startByte <= endByte
  {
    if |key| != AES_KEY_SIZE {
      return Err(InvalidKeySize);
    }
    if |iv| != BLOCK {
      return Err(InvalidIvSize);
    }
    if startByte < 0 || endByte < 0 || startByte > endByte {
      return Err(InvalidInput);
    }
    var clampedEnd := if endByte < |ciphertext| - 1 then endByte else |ciphertext| - 1;
    if clampedEnd < startByte {
      return Ok([]);
    }
    var startBlock, endBlock := startByte / BLOCK, clampedEnd / BLOCK;
    var blockAlignedStart := startBlock * BLOCK;
    var blockAlignedEnd := if (endBlock + 1) * BLOCK < |ciphertext| then (endBlock + 1) * BLOCK else |ciphertext|;
    Aligned(startByte, clampedEnd, |ciphertext|);
    var decrypted := DecryptBlocks(aes, ciphertext, key, iv, startBlock, blockAlignedEnd);
    var offsetInFirstBlock := startByte - blockAlignedStart;
    var requestedLength := clampedEnd - startByte + 1;
    var end := offsetInFirstBlock + requestedLength;
    r := Ok(decrypted[offsetInFirstBlock..end]);
    SliceOfSlice(Ctr(aes, key, iv, ciphertext), blockAlignedStart, blockAlignedEnd, startByte, clampedEnd + 1);
  }

  /** The blocks from that of the first byte to that of the last cover both. */
  lemma Aligned(first: nat, last: nat, length: nat)
    requires first <= last < length
    ensures first / BLOCK * BLOCK <= first && last < (last / BLOCK + 1) * BLOCK
    ensures first / BLOCK * BLOCK <= if (last / BLOCK + 1) * BLOCK < length then (last / BLOCK + 1) * BLOCK else length
  {
  }
}
