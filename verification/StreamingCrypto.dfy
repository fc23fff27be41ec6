/** The chunked encryptor for media files. */
module StreamingCrypto {
  import opened Common
  import opened AesCtr

  const CHUNK_SIZE: nat := 1024 * 1024

  /** A random nonce followed by a zero counter. */
  method GenerateCtrIv(nonce: seq<byte>) returns (iv: array<byte>)
    requires |nonce| == NONCE
    ensures fresh(iv) && iv[..] == nonce + seq(8, _ => 0)
  {
    iv := new byte[16](_ => 0);
    SetBytes(iv, 0, nonce);
  }

  function Flatten(chunks: seq<seq<byte>>): seq<byte> {
    if chunks == [] then [] else Flatten(chunks[..|chunks| - 1]) + chunks[|chunks| - 1]
  }

  lemma {:induction false} FlattenPrefix(chunks: seq<seq<byte>>, i: nat)
    requires i <= |chunks|
    ensures |Flatten(chunks[..i])| <= |Flatten(chunks)|
    decreases |chunks| - i
  {
    if i == |chunks| {
      assert chunks[..i] == chunks;
    } else {
      assert chunks[..i + 1][..i] == chunks[..i];
      FlattenPrefix(chunks, i + 1);
    }
  }

  /** Copy the chunks into one buffer, each after the one before. */
  method Combine(chunks: seq<seq<byte>>) returns (combined: array<byte>)
    ensures fresh(combined) && combined[..] == Flatten(chunks)
  {
    var totalSize := 0;
    for i := 0 to |chunks|
      invariant totalSize == |Flatten(chunks[..i])|
    {
      assert chunks[..i + 1][..i] == chunks[..i];
      totalSize := totalSize + |chunks[i]|;
    }
    assert chunks[..|chunks|] == chunks;
    combined := new byte[totalSize](_ => 0);
    var writeOffset := 0;
    for i := 0 to |chunks|
      invariant writeOffset == |Flatten(chunks[..i])| <= totalSize
      invariant combined[..writeOffset] == Flatten(chunks[..i])
    {
      assert chunks[..i + 1][..i] == chunks[..i];
      FlattenPrefix(chunks, i + 1);
      SetBytes(combined, writeOffset, chunks[i]);
      writeOffset := writeOffset + |chunks[i]|;
    }
  }

  lemma ChunkIsAligned(offset: nat)
    requires offset % CHUNK_SIZE == 0
    ensures offset / BLOCK * BLOCK == offset && (offset + CHUNK_SIZE) % CHUNK_SIZE == 0
  {
    assert offset == offset / CHUNK_SIZE * 65536 * BLOCK;
  }

  /** With a zero counter half the block number itself is the counter. */
  lemma CounterFromZero(iv: Block, s: nat)
    requires AllZero(iv[NONCE..])
    ensures CounterBlock(iv, s) == iv[..NONCE] + BigEndian(s % TWO64, 8)
  {
    ZerosAreZero(iv[NONCE..]);
  }

  /** One chunk, from the counter of its own byte offset. */
  method EncryptChunk(aes: BlockCipher, file: seq<byte>, key: seq<byte>, iv: Block, offset: nat)
    returns (encrypted: seq<byte>, end: nat)
    requires offset < |file| && offset % CHUNK_SIZE == 0 && AllZero(iv[NONCE..])
    ensures offset < end <= |file| && (end % CHUNK_SIZE == 0 || end == |file|)
    ensures encrypted == Ctr(aes, key, iv, file)[offset..end]
  {
    end := if offset + CHUNK_SIZE < |file| then offset + CHUNK_SIZE else |file|;
    var blockOffset := offset / BLOCK;
    ChunkIsAligned(offset);
    CounterFromZero(iv, blockOffset);
    var counter := BuildCounter(iv[..NONCE], blockOffset);
    encrypted := Ctr(aes, key, counter[..], file[offset..end]);
    CtrSlice(aes, key, iv, file, blockOffset, end);
  }

  /** The chunk loop: together the chunks are the one-shot encryption. */
  method EncryptChunks(
    aes: BlockCipher, file: seq<byte>, key: seq<byte>, iv: Block)
    returns (encryptedChunks: seq<seq<byte>>)
    requires AllZero(iv[NONCE..])
    ensures Flatten(encryptedChunks) == Ctr(aes, key, iv, file)
  {
    ghost var whole := Ctr(aes, key, iv, file);
    encryptedChunks := [];
    var offset := 0;
    while offset < |file|
      invariant offset <= |file| && (offset % CHUNK_SIZE == 0 || offset == |file|)
      invariant Flatten(encryptedChunks) == whole[..offset]
    {
      var encrypted, end := EncryptChunk(aes, file, key, iv, offset);
      assert (encryptedChunks + [encrypted])[..|encryptedChunks|] == encryptedChunks;
      assert whole[..end] == whole[..offset] + whole[offset..end];
      encryptedChunks := encryptedChunks + [encrypted];
      offset := end;
    }
  }

  /**
   Encrypting a file of any size chunk by chunk gives the one-shot encryption under the
   returned IV; the key leaves only wrapped, and its buffer is zeroed.
   */
  method EncryptFileCtr(
    aes: BlockCipher, file: seq<byte>, fileKey: array<byte>, nonce: seq<byte>, wrap: seq<byte> -> seq<byte>)
    returns (ciphertext: array<byte>, iv: array<byte>, wrappedKey: seq<byte>)
    requires fileKey.Length == AES_KEY_SIZE && |nonce| == NONCE
    modifies fileKey
    ensures iv[..] == nonce + seq(8, _ => 0)
    ensures EncryptAesCtr(aes, file, old(fileKey[..]), iv[..]) == Ok(ciphertext[..])
    ensures wrappedKey == wrap(old(fileKey[..])) && AllZero(fileKey[..])
  {
    iv := GenerateCtrIv(nonce);
    var key := fileKey[..];
    var encryptedChunks := EncryptChunks(aes, file, key, iv[..]);
    ciphertext := Combine(encryptedChunks);
    wrappedKey := wrap(key);
    FillZero(fileKey);
  }

  /** Any range read of a chunk-encrypted file returns exactly those bytes of the file. */
  method EncryptThenReadRange(
    aes: BlockCipher, file: seq<byte>, fileKey: array<byte>, nonce: seq<byte>, wrap: seq<byte> -> seq<byte>,
    first: nat, last: nat)
    returns (r: Result<seq<byte>, CryptoError>)
    requires fileKey.Length == AES_KEY_SIZE && |nonce| == NONCE && first <= last
    modifies fileKey
    ensures r == Ok(Range(file, first, last))
    ensures last < |file| ==> r == Ok(file[first..last + 1])
  {
    var key := fileKey[..];
    var ciphertext, iv, _ := EncryptFileCtr(aes, file, fileKey, nonce, wrap);
    DecryptInvertsEncrypt(aes, file, key, iv[..]);
    r := DecryptAesCtrRange(aes, ciphertext[..], key, iv[..], first, last);
  }
}
