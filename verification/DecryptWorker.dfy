/** The service worker that answers media requests with decrypted bytes. */
module DecryptWorker {
  import opened Common
  import opened AesCtr
  import opened StreamingCrypto
  import opened HttpRange

  // ---------------------------------------------------------------- hex

  function HexDigit(c: char): Option<nat> {
    if '0' <= c <= '9' then Some((c as int) - ('0' as int))
    else if 'a' <= c <= 'f' then Some((c as int) - ('a' as int) + 10)
    else if 'A' <= c <= 'F' then Some((c as int) - ('A' as int) + 10)
    else None
  }

  /** The characters `parseInt` skips in front of a number. */
  predicate IsBlank(c: char) {
    || '\t' <= c <= '\r' || c == ' ' || c == '\U{00A0}' || c == '\U{1680}' || '\U{2000}' <= c <= '\U{200A}'
    || c in {'\U{2028}', '\U{2029}', '\U{202F}', '\U{205F}', '\U{3000}', '\U{FEFF}'}
  }

  /** `parseInt` of two characters in base 16, stored as a byte: a sign wraps, no digits at all give 0. */
  function HexPair(a: char, b: char): byte {
    match (HexDigit(a), HexDigit(b))
    case (Some(high), Some(low)) => high * 16 + low
    case (Some(digit), None) => digit
    case (None, Some(digit)) =>
      if a == '-' then (256 - digit) % 256 else if a == '+' || IsBlank(a) then digit else 0
    case (None, None) => 0
  }

  /** Pairs of characters; an odd last one is beyond the buffer and dropped. */
  function HexDecoded(hex: string): (bytes: seq<byte>)
    ensures |bytes| == |hex| / 2
  {
    seq<byte>(|hex| / 2, i requires 0 <= i < |hex| / 2 => HexPair(hex[2 * i], hex[2 * i + 1]))
  }

  function HexChar(d: nat): (c: char)
    requires d < 16
    ensures HexDigit(c) == Some(d)
  {
    if d < 10 then (('0' as int) + d) as char else (('a' as int) + d - 10) as char
  }

  /** `bytesToHex` of the crypto package. */
  function HexEncoded(bytes: seq<byte>): (hex: string)
    ensures |hex| == 2 * |bytes|
  {
    if bytes == [] then ""
    else
      var last := bytes[|bytes| - 1];
      HexEncoded(bytes[..|bytes| - 1]) + [HexChar(last / 16), HexChar(last % 16)]
  }

  lemma {:induction false} HexRoundTrip(bytes: seq<byte>)
    ensures HexDecoded(HexEncoded(bytes)) == bytes
  {
    if bytes != [] {
      var init, last := bytes[..|bytes| - 1], bytes[|bytes| - 1];
      HexRoundTrip(init);
      var hex := HexEncoded(bytes);
      assert hex[..2 * |init|] == HexEncoded(init);
      forall i | 0 <= i < |bytes|
        ensures HexDecoded(hex)[i] == bytes[i]
      {
        if i < |init| {
          assert hex[2 * i] == HexEncoded(init)[2 * i] && hex[2 * i + 1] == HexEncoded(init)[2 * i + 1];
          assert HexDecoded(HexEncoded(init))[i] == HexPair(hex[2 * i], hex[2 * i + 1]);
        }
      }
    }
  }

  /** A pair of hex digits of either case is read as the number it writes. */
  lemma HexDigitsMean(hex: string, k: nat, high: nat, low: nat)
    requires k < |hex| / 2 && high < 16 && low < 16
    requires hex[2 * k] in ["0123456789abcdef"[high], "0123456789ABCDEF"[high]]
    requires hex[2 * k + 1] in ["0123456789abcdef"[low], "0123456789ABCDEF"[low]]
    ensures HexDecoded(hex)[k] == 16 * high + low
  {
    HexDigitMeans(high);
    HexDigitMeans(low);
  }

  lemma HexDigitMeans(d: nat)
    requires d < 16
    ensures HexDigit("0123456789abcdef"[d]) == HexDigit("0123456789ABCDEF"[d]) == Some(d)
  {
  }

  /** Any string decodes: writes past the end of the buffer are ignored. */
  method HexToBytes(hex: string) returns (bytes: array<byte>)
    ensures fresh(bytes) && bytes[..] == HexDecoded(hex)
  {
    bytes := new byte[|hex| / 2](_ => 0);
    var i := 0;
    while i < |hex|
      invariant 0 <= i <= |hex| + 1 && i % 2 == 0
      invariant forall k :: 0 <= k < i / 2 && k < bytes.Length ==> bytes[k] == HexDecoded(hex)[k]
    {
      if i / 2 < bytes.Length {
        bytes[i / 2] := HexPair(hex[i], hex[i + 1]);
      }
      i := i + 2;
    }
    assert bytes[..] == HexDecoded(hex);
  }

  // ---------------------------------------------------------------- range decryption

  /** Web Crypto takes keys of three sizes; the counter is read from bytes 8 to 15 of the IV. */
  predicate Decryptable(keyHex: string, ivHex: string) {
    |HexDecoded(keyHex)| in {16, 24, 32} && |HexDecoded(ivHex)| >= BLOCK
  }

  /** The whole plaintext under a key and an IV given in hex. */
  function Plain(aes: BlockCipher, keyHex: string, ivHex: string, encrypted: seq<byte>): (r: seq<byte>)
    requires Decryptable(keyHex, ivHex)
    ensures |r| == |encrypted|
  {
    Ctr(aes, HexDecoded(keyHex), HexDecoded(ivHex)[..BLOCK], encrypted)
  }

  /** The counter of a block, from the nonce and the counter in the IV. */
  method CounterAt(ivBytes: array<byte>, startBlock: nat) returns (counter: array<byte>)
    requires ivBytes.Length >= BLOCK
    ensures fresh(counter) && counter[..] == CounterBlock(ivBytes[..BLOCK], startBlock)
  {
    var iv := ivBytes[..BLOCK];
    assert iv[..NONCE] == ivBytes[..NONCE];
    counter := BuildCounter(ivBytes[..NONCE], FromBigEndian(iv[NONCE..]) + startBlock);
  }

  /** The worker's own range decryptor; `subarray` clips to the data it is given. None when it throws. */
  method DecryptRange(
    aes: BlockCipher, encrypted: seq<byte>, keyHex: string, ivHex: string, start: nat, end: int)
    returns (r: Option<seq<byte>>)
    requires start <= end + 1
    ensures r ==
      if Decryptable(keyHex, ivHex) then Some(Range(Plain(aes, keyHex, ivHex, encrypted), start, end)) else None
  {
    var keyBytes := HexToBytes(keyHex);
    var ivBytes := HexToBytes(ivHex);
    var startBlock := start / BLOCK;
    if ivBytes.Length < BLOCK {
      return None;
    }
    var counter := CounterAt(ivBytes, startBlock);
    if keyBytes.Length !in {16, 24, 32} {
      return None;
    }
    var blockAlignedStart := startBlock * BLOCK;
    var blockAlignedEnd := AlignedEnd(end, |encrypted|);
    var slice := Subarray(encrypted, blockAlignedStart, blockAlignedEnd);
    var decrypted := Ctr(aes, keyBytes[..], counter[..], slice);
    var offsetInFirstBlock := start - blockAlignedStart;
    var requestedLength := end - start + 1;
    r := Some(Subarray(decrypted, offsetInFirstBlock, offsetInFirstBlock + requestedLength));
    RangeFromBlocks(aes, keyBytes[..], ivBytes[..BLOCK], encrypted, start, end);
  }

  /** The worker, given the key and IV of a chunk-encrypted file, returns exactly the bytes asked for. */
  method EncryptThenDecryptRange(
    aes: BlockCipher, file: seq<byte>, fileKey: array<byte>, nonce: seq<byte>, wrap: seq<byte> -> seq<byte>,
    start: nat, end: int)
    returns (r: Option<seq<byte>>)
    requires fileKey.Length == AES_KEY_SIZE && |nonce| == NONCE && start <= end + 1
    modifies fileKey
    ensures r == Some(Range(file, start, end))
    ensures end < |file| ==> r == Some(file[start..end + 1])
  {
    var key := fileKey[..];
    var ciphertext, iv, _ := EncryptFileCtr(aes, file, fileKey, nonce, wrap);
    DecryptInvertsEncrypt(aes, file, key, iv[..]);
    HexRoundTrip(key);
    HexRoundTrip(iv[..]);
    assert iv[..][..BLOCK] == iv[..];
    r := DecryptRange(aes, ciphertext[..], HexEncoded(key), HexEncoded(iv[..]), start, end);
  }

  /** The end of the block that holds byte `end`, or of the data. */
  function AlignedEnd(end: int, length: nat): (e: nat)
    requires end >= -1
    ensures e <= length
  {
    if (end / BLOCK + 1) * BLOCK < length then (end / BLOCK + 1) * BLOCK else length
  }

  lemma RangeFromBlocks(aes: BlockCipher, key: seq<byte>, iv: Block, encrypted: seq<byte>, start: nat, end: int)
    requires start <= end + 1
    ensures
      var s := start / BLOCK;
      var decrypted := Ctr(aes, key, CounterBlock(iv, s), Subarray(encrypted, s * BLOCK, AlignedEnd(end, |encrypted|)));
      Subarray(decrypted, start - s * BLOCK, start - s * BLOCK + (end - start + 1))
      == Range(Ctr(aes, key, iv, encrypted), start, end)
  {
    var s, e := start / BLOCK, AlignedEnd(end, |encrypted|);
    if s * BLOCK <= e {
      CtrSlice(aes, key, iv, encrypted, s, e);
    }
    ClippedSlice(Ctr(aes, key, iv, encrypted), start, end);
  }

  /** `subarray(begin, end)` */
  function Subarray(data: seq<byte>, begin: nat, end: nat): seq<byte> {
    var b := if begin < |data| then begin else |data|;
    var e := if end < |data| then end else |data|;
    if b <= e then data[b..e] else []
  }

  lemma ClippedSlice(data: seq<byte>, start: nat, end: int)
    requires start <= end + 1
    ensures
      var s, e := start / BLOCK * BLOCK, AlignedEnd(end, |data|);
      Subarray(Subarray(data, s, e), start - s, start - s + (end - start + 1)) == Range(data, start, end)
  {
    var s, e := start / BLOCK * BLOCK, AlignedEnd(end, |data|);
    assert s <= start && end + 1 <= (end / BLOCK + 1) * BLOCK;
    if s <= e && start < |data| {
      var last := if end < |data| then end + 1 else |data|;
      assert last <= e && start <= last;
      SliceOfSlice(data, s, e, start, last);
    }
  }

  // ---------------------------------------------------------------- the encrypted cache

  const MAX_CACHE_ENTRIES: nat := 5

  /** A `Map` in insertion order. */
  type Cache = seq<(string, seq<byte>)>

  function Lookup(cache: Cache, key: string): Option<seq<byte>> {
    if cache == [] then None
    else if cache[0].0 == key then Some(cache[0].1)
    else Lookup(cache[1..], key)
  }

  ghost predicate Unique(cache: Cache) {
    forall i, j :: 0 <= i < j < |cache| ==> cache[i].0 != cache[j].0
  }

  /** Looking a key up finds the entry under it. */
  lemma {:induction false} LookupIff(cache: Cache, key: string, data: seq<byte>)
    requires Unique(cache)
    ensures Lookup(cache, key) == Some(data) <==> (key, data) in cache
  {
    if cache != [] {
      assert cache == [cache[0]] + cache[1..];
      LookupIff(cache[1..], key, data);
      assert forall i :: 0 < i < |cache| ==> cache[1..][i - 1] == cache[i] && cache[i].0 != cache[0].0;
    }
  }

  lemma {:induction false} NotFoundIff(cache: Cache, key: string)
    ensures Lookup(cache, key).None? <==> forall i :: 0 <= i < |cache| ==> cache[i].0 != key
  {
    if cache != [] {
      NotFoundIff(cache[1..], key);
      assert forall i :: 0 < i < |cache| ==> cache[i] == cache[1..][i - 1];
      assert forall i :: 0 <= i < |cache| - 1 ==> cache[1..][i] == cache[i + 1];
    }
  }

  /** Deleting keeps the order of all other entries. */
  lemma {:induction false} DeletedAt(cache: Cache, key: string, i: nat)
    requires Unique(cache) && i < |cache| && cache[i].0 == key
    ensures Deleted(cache, key) == cache[..i] + cache[i + 1..]
  {
    if i == 0 {
      NotFoundIff(cache[1..], key);
      NothingDeleted(cache[1..], key);
    } else {
      var rest := cache[1..];
      assert rest[i - 1] == cache[i] && cache[0].0 != key;
      DeletedAt(rest, key, i - 1);
      assert [cache[0]] + (rest[..i - 1] + rest[i..]) == cache[..i] + cache[i + 1..];
    }
  }

  lemma {:induction false} NothingDeleted(cache: Cache, key: string)
    requires Lookup(cache, key).None?
    ensures Deleted(cache, key) == cache
  {
    if cache != [] {
      NothingDeleted(cache[1..], key);
      assert cache == [cache[0]] + cache[1..];
    }
  }

  lemma DeletedUnique(cache: Cache, key: string)
    requires Unique(cache)
    ensures Unique(Deleted(cache, key))
  {
    NotFoundIff(cache, key);
    if i :| 0 <= i < |cache| && cache[i].0 == key {
      DeletedAt(cache, key, i);
    } else {
      NothingDeleted(cache, key);
    }
  }

  /** A new key goes to the end. */
  lemma {:induction false} StoredLast(cache: Cache, key: string, data: seq<byte>)
    requires Lookup(cache, key).None?
    ensures Stored(cache, key, data) == cache + [(key, data)]
  {
    if cache != [] {
      StoredLast(cache[1..], key, data);
      assert [cache[0]] + (cache[1..] + [(key, data)]) == cache + [(key, data)];
    }
  }

  function Deleted(cache: Cache, key: string): (r: Cache)
    ensures |r| <= |cache|
    ensures forall k :: Lookup(r, k) == if k == key then None else Lookup(cache, k)
  {
    if cache == [] then []
    else if cache[0].0 == key then Deleted(cache[1..], key)
    else
      var rest := Deleted(cache[1..], key);
      assert ([cache[0]] + rest)[1..] == rest;
      [cache[0]] + rest
  }

  function Stored(cache: Cache, key: string, data: seq<byte>): (r: Cache)
    ensures |r| == if Lookup(cache, key).Some? then |cache| else |cache| + 1
    ensures forall k :: Lookup(r, k) == if k == key then Some(data) else Lookup(cache, k)
  {
    if cache == [] then [(key, data)]
    else if cache[0].0 == key then
      assert ([(key, data)] + cache[1..])[1..] == cache[1..];
      [(key, data)] + cache[1..]
    else
      var rest := Stored(cache[1..], key, data);
      assert ([cache[0]] + rest)[1..] == rest;
      [cache[0]] + rest
  }

  lemma OldestDeleted(cache: Cache)
    requires Unique(cache) && cache != []
    ensures Deleted(cache, cache[0].0) == cache[1..] && Unique(cache[1..])
  {
    DeletedAt(cache, cache[0].0, 0);
  }

  lemma StoredUnique(cache: Cache, key: string, data: seq<byte>)
    requires Unique(cache) && Lookup(cache, key).None?
    ensures Unique(Stored(cache, key, data))
  {
    NotFoundIff(cache, key);
    StoredLast(cache, key, data);
  }

  // ---------------------------------------------------------------- the worker

  datatype StreamContext = StreamContext(fileKey: string, iv: string, cid: string, totalSize: nat, mimeType: string)

  datatype Fetched = Unreachable | Status(code: nat) | Body(chunks: seq<seq<byte>>)

  datatype Response =
    | Failure(status: nat)
    | RangeNotSatisfiable(totalSize: nat)
    | Full(contentLength: nat, body: seq<byte>)
    | Partial(start: nat, end: nat, totalSize: nat, contentLength: nat, body: seq<byte>)

  /** The reply to a request whose encrypted bytes are at hand. */
  ghost predicate Answers(
    r: Response, aes: BlockCipher, ctx: StreamContext, encrypted: seq<byte>, rangeHeader: Option<string>)
  {
    var asked := Parsed(rangeHeader);
    if asked.Some? && NamesNothing(asked.value, ctx.totalSize) then r == RangeNotSatisfiable(ctx.totalSize)
    else if !Decryptable(ctx.fileKey, ctx.iv) then r == Failure(500)
    else
      var plain := Plain(aes, ctx.fileKey, ctx.iv, encrypted);
      match asked
      case None =>
        r.Full? && r.body == Range(plain, 0, ctx.totalSize - 1) && r.contentLength == |r.body|
      case Some(spec) =>
        && r.Partial? && r.totalSize == ctx.totalSize
        && NamesExactly(spec, ctx.totalSize, r.start, r.end)
        && r.body == Range(plain, r.start, r.end)
        && r.contentLength == |r.body|
  }

  class Worker {
    var streamRegistry: map<string, StreamContext>
    var encryptedCache: Cache
    /** The CID each cached entry was fetched for. */
    ghost var fetchedFor: map<string, string>

    /** IPFS addresses content: a CID always names the same bytes. */
    ghost predicate Valid(content: string -> seq<byte>)
      reads this
    {
      && |encryptedCache| <= MAX_CACHE_ENTRIES && Unique(encryptedCache)
      && forall n :: Lookup(encryptedCache, n).Some? ==>
           n in fetchedFor && Lookup(encryptedCache, n) == Some(content(fetchedFor[n]))
    }

    constructor ()
      ensures streamRegistry == map[] && encryptedCache == []
    {
      streamRegistry, encryptedCache, fetchedFor := map[], [], map[];
    }

    /** Registering a name again replaces its context and leaves its cached bytes. */
    method RegisterStream(name: string, ctx: StreamContext, ghost content: string -> seq<byte>)
      requires Valid(content)
      modifies this
      ensures Valid(content) && streamRegistry == old(streamRegistry)[name := ctx]
      ensures encryptedCache == old(encryptedCache) && fetchedFor == old(fetchedFor)
    {
      streamRegistry := streamRegistry[name := ctx];
    }

    method UnregisterStream(name: string, ghost content: string -> seq<byte>)
      requires Valid(content)
      modifies this
      ensures Valid(content) && streamRegistry == old(streamRegistry) - {name}
      ensures encryptedCache == Deleted(old(encryptedCache), name) && Lookup(encryptedCache, name).None?
      ensures fetchedFor == old(fetchedFor)
    {
      streamRegistry := streamRegistry - {name};
      DeletedUnique(encryptedCache, name);
      encryptedCache := Deleted(encryptedCache, name);
    }

    /** A new entry goes to the end, and the first of five makes room for it. */
    method CacheSet(key: string, data: seq<byte>)
      requires |encryptedCache| <= MAX_CACHE_ENTRIES && Unique(encryptedCache) && Lookup(encryptedCache, key).None?
      modifies this
      ensures streamRegistry == old(streamRegistry) && fetchedFor == old(fetchedFor)
      ensures |encryptedCache| <= MAX_CACHE_ENTRIES && Unique(encryptedCache)
      ensures encryptedCache ==
        (if |old(encryptedCache)| == 5 then old(encryptedCache)[1..] else old(encryptedCache)) + [(key, data)]
      ensures forall k ::
        Lookup(encryptedCache, k) == if k == key then Some(data)
        else if |old(encryptedCache)| == 5 && k == old(encryptedCache)[0].0 then None
        else Lookup(old(encryptedCache), k)
    {
      if |encryptedCache| >= MAX_CACHE_ENTRIES {
        var oldest := encryptedCache[0].0;
        OldestDeleted(encryptedCache);
        encryptedCache := Deleted(encryptedCache, oldest);
      }
      StoredLast(encryptedCache, key, data);
      StoredUnique(encryptedCache, key, data);
      encryptedCache := Stored(encryptedCache, key, data);
    }

    /** Serve from the cache when the name has an entry, and otherwise fetch the registered CID and keep it. */
    method HandleFetch(
      aes: BlockCipher, name: string, rangeHeader: Option<string>, fetched: Fetched, ghost content: string -> seq<byte>)
      returns (r: Response)
      requires Valid(content)
      requires name in streamRegistry && fetched.Body? ==> Flatten(fetched.chunks) == content(streamRegistry[name].cid)
      modifies this
      ensures Valid(content) && streamRegistry == old(streamRegistry)
      ensures name !in streamRegistry ==> r == Failure(404)
      ensures name in streamRegistry && Lookup(old(encryptedCache), name).Some? ==>
        encryptedCache == old(encryptedCache) &&
        Answers(r, aes, streamRegistry[name], content(fetchedFor[name]), rangeHeader)
      ensures name in streamRegistry && Lookup(old(encryptedCache), name).None? ==>
        match fetched
        case Unreachable => r == Failure(502)
        case Status(code) => r == Failure(code)
        case Body(_) =>
          && Answers(r, aes, streamRegistry[name], content(streamRegistry[name].cid), rangeHeader)
          && Lookup(encryptedCache, name) == Some(content(streamRegistry[name].cid))
    {
      if name !in streamRegistry {
        return Failure(404);
      }
      var ctx := streamRegistry[name];
      var cached := Lookup(encryptedCache, name);
      var encrypted := [];
      if cached.Some? {
        encrypted := cached.value;
      } else {
        match fetched
        case Unreachable => return Failure(502);
        case Status(code) => return Failure(code);
        case Body(chunks) =>
          var combined := Combine(chunks);
          encrypted := combined[..];
          CacheSet(name, encrypted);
          fetchedFor := fetchedFor[name := ctx.cid];
      }
      var start, end, isRangeRequest, refused := SelectRange(rangeHeader, ctx.totalSize);
      if refused {
        return RangeNotSatisfiable(ctx.totalSize);
      }
      var decrypted := DecryptRange(aes, encrypted, ctx.fileKey, ctx.iv, start, end);
      if decrypted.None? {
        return Failure(500);
      }
      var body := decrypted.value;
      if isRangeRequest {
        return Partial(start, end, ctx.totalSize, |body|, body);
      }
      return Full(|body|, body);
    }
  }

  // ---------------------------------------------------------------- what a client receives

  /** When the fetched bytes encrypt a file of the registered size, each reply carries exactly what it announces. */
  lemma RepliesAreExact(
    r: Response, aes: BlockCipher, ctx: StreamContext, file: seq<byte>, encrypted: seq<byte>,
      rangeHeader: Option<string>)
    requires EncryptAesCtr(aes, file, HexDecoded(ctx.fileKey), HexDecoded(ctx.iv)) == Ok(encrypted)
    requires ctx.totalSize == |file| && Answers(r, aes, ctx, encrypted, rangeHeader)
    ensures !r.Failure?
    ensures r.Full? <==> Parsed(rangeHeader).None?
    ensures rangeHeader.None? ==> Parsed(rangeHeader).None?
    ensures r.Full? ==> r.body == file && r.contentLength == |file|
    ensures r.Partial? ==>
      r.start <= r.end < |file| && r.body == file[r.start..r.end + 1] && r.contentLength == r.end - r.start + 1
    ensures r.RangeNotSatisfiable? <==> Parsed(rangeHeader).Some? && NamesNothing(Parsed(rangeHeader).value, |file|)
  {
    DecryptInvertsEncrypt(aes, file, HexDecoded(ctx.fileKey), HexDecoded(ctx.iv));
    assert HexDecoded(ctx.iv)[..BLOCK] == HexDecoded(ctx.iv);
  }

  /** In general the announced interval and the body's length agree exactly when the fetched bytes reach its end. */
  lemma AnnouncedLengthIff(
    r: Response, aes: BlockCipher, ctx: StreamContext, encrypted: seq<byte>, rangeHeader: Option<string>)
    requires Answers(r, aes, ctx, encrypted, rangeHeader) && r.Partial?
    ensures r.contentLength == r.end - r.start + 1 <==> r.end < |encrypted|
  {
  }

  /** A range written as first and last byte, as first byte, or as a number of last bytes gets just those bytes. */
  lemma WrittenRangeAnswered(
    r: Response, aes: BlockCipher, ctx: StreamContext, file: seq<byte>, encrypted: seq<byte>, spec: RangeSpec,
      rangeHeader: string)
    requires EncryptAesCtr(aes, file, HexDecoded(ctx.fileKey), HexDecoded(ctx.iv)) == Ok(encrypted)
    requires ctx.totalSize == |file| && Answers(r, aes, ctx, encrypted, Some(rangeHeader))
    ensures spec.FromTo? && rangeHeader == "bytes=" + Decimal(spec.first) + "-" + Decimal(spec.last) ==>
      if spec.first <= spec.last && spec.first < |file|
      then
        && r.Partial? && r.start == spec.first && r.end == (if spec.last < |file| then spec.last else |file| - 1)
        && r.body == file[spec.first..r.end + 1]
      else r == RangeNotSatisfiable(|file|)
    ensures spec.From? && rangeHeader == "bytes=" + Decimal(spec.first) + "-" ==>
      if spec.first < |file|
      then r.Partial? && r.start == spec.first && r.end == |file| - 1 && r.body == file[spec.first..]
      else r == RangeNotSatisfiable(|file|)
    ensures spec.Suffix? && rangeHeader == "bytes=-" + Decimal(spec.length) ==>
      if spec.length > 0 && |file| > 0
      then
        && r.Partial? && r.start == (if spec.length < |file| then |file| - spec.length else 0)
        && r.end == |file| - 1 && r.body == file[r.start..]
      else r == RangeNotSatisfiable(|file|)
  {
    RepliesAreExact(r, aes, ctx, file, encrypted, Some(rangeHeader));
    RefusedIff(spec, |file|);
    WrittenRange(spec, |file|, if r.Partial? then r.start else 0, if r.Partial? then r.end else 0);
  }

  /** Without a range refusal, a reply fails exactly when the key or the IV cannot be used. */
  lemma FailsIff(
    r: Response, aes: BlockCipher, ctx: StreamContext, encrypted: seq<byte>, rangeHeader: Option<string>)
    requires Answers(r, aes, ctx, encrypted, rangeHeader)
    ensures r.Failure? <==>
      !r.RangeNotSatisfiable? && (|ctx.fileKey| / 2 !in {16, 24, 32} || |ctx.iv| / 2 < 16)
    ensures r.Failure? ==> r.status == 500
  {
  }
}
