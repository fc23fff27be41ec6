/**
 The IPNS record parser against an encoder for the Protocol Buffers wire format
 ("Base 128 Varints" and "Message Structure" in the encoding guide).
 */
module IpnsRecord {
  import opened Common

  datatype ParseError =
    | VarintTooLong
    | UnexpectedEnd
    | FieldExceedsBuffer
    | UnsupportedWireType(wireType: nat)
    | MissingValue

  // ---------------------------------------------------------------- varints

  function Pow128(n: nat): (p: nat)
    ensures p > 0
  {
    if n == 0 then 1 else 128 * Pow128(n - 1)
  }

  /** Ten bytes of seven bits each: the reader keeps all seventy and truncates none. */
  const VARINT_LIMIT: nat := Pow128(10)

  function EncodeVarint(n: nat): (bs: seq<byte>)
    ensures bs != []
  {
    if n < 128 then [n] else [n % 128 + 128] + EncodeVarint(n / 128)
  }

  /** The number at the front and how many bytes it takes, when `read` of its bytes are already behind. */
  function DecodeVarint(bs: seq<byte>, read: nat): (r: Result<(nat, nat), ParseError>)
    ensures r.Ok? ==> 0 < r.value.1 <= |bs|
  {
    if bs == [] then Err(UnexpectedEnd)
    else if bs[0] < 128 then Ok((bs[0] as nat, 1))
    else if read >= 9 then Err(VarintTooLong)
    else
      match DecodeVarint(bs[1..], read + 1)
      case Err(e) => Err(e)
      case Ok((rest, length)) => Ok((bs[0] - 128 + 128 * rest, length + 1))
  }

  lemma {:induction false} DecodeEncoded(n: nat, rest: seq<byte>, read: nat)
    requires read <= 9
    ensures DecodeVarint(EncodeVarint(n) + rest, read)
         == if n < Pow128(10 - read) then Ok((n, |EncodeVarint(n)|)) else Err(VarintTooLong)
    decreases n
  {
    var bs := EncodeVarint(n) + rest;
    assert Pow128(10 - read) == 128 * Pow128(9 - read);
    if n >= 128 {
      assert bs[1..] == EncodeVarint(n / 128) + rest;
      if read < 9 {
        DecodeEncoded(n / 128, rest, read + 1);
      }
    }
  }

  /** Reading inverts writing exactly below the seventy-bit limit, whatever follows. */
  lemma VarintRoundTripIff(n: nat, rest: seq<byte>)
    ensures DecodeVarint(EncodeVarint(n) + rest, 0) == Ok((n, |EncodeVarint(n)|)) <==> n < VARINT_LIMIT
  {
    DecodeEncoded(n, rest, 0);
  }

  /** A number whose low bits are `low` and whose remaining bits, worth p each, are still to be read. */
  function Continued(low: nat, p: nat, read: nat, r: Result<(nat, nat), ParseError>): Result<(nat, nat), ParseError> {
    match r
    case Err(e) => Err(e)
    case Ok((rest, length)) => Ok((low + rest * p, read + length))
  }

  /** What one more byte does to the number read so far. */
  lemma ContinuedStep(low: nat, p: nat, read: nat, bs: seq<byte>)
    requires bs != [] && low < p
    ensures var grown := Grown(low, p, bs[0]);
      && grown < 128 * p
      && Continued(low, p, read, DecodeVarint(bs, read)) ==
           if bs[0] < 128 then Ok((grown, read + 1))
           else if read >= 9 then Err(VarintTooLong)
           else Continued(grown, 128 * p, read + 1, DecodeVarint(bs[1..], read + 1))
  {
    var rest := DecodeVarint(bs[1..], read + 1);
    SevenBits(low, bs[0] % 128, p, if rest.Ok? then rest.value.0 else 0);
  }

  lemma SevenBits(low: nat, bits: nat, p: nat, v: nat)
    requires low < p && bits < 128
    ensures low + bits * p < 128 * p
    ensures low + (bits + 128 * v) * p == low + bits * p + v * (128 * p)
  {
    assert bits * p <= 127 * p;
  }

  /** Seven more bits, above all earlier ones, so adding is or-ing. */
  function Grown(low: nat, p: nat, b: byte): nat {
    low + b % 128 * p
  }

  /** Seven bits a byte, least significant first. */
  method ReadVarint(buf: seq<byte>, offset: nat) returns (r: Result<(nat, nat), ParseError>)
    requires offset <= |buf|
    ensures r ==
      match DecodeVarint(buf[offset..], 0)
      case Err(e) => Err(e)
      case Ok((value, length)) => Ok((value, offset + length))
  {
    var result: nat, shift: nat := 0, 0;
    var pos := offset;
    ghost var read: nat, p: nat := 0, 1;
    ghost var expected := DecodeVarint(buf[offset..], 0);
    while pos < |buf|
      invariant pos == offset + read <= |buf| && shift == 7 * read && read <= 9
      invariant p == Pow128(read) && result < p
      invariant expected == Continued(result, p, read, DecodeVarint(buf[pos..], read))
    {
      var b := buf[pos];
      ContinuedStep(result, p, read, buf[pos..]);
      assert buf[pos..][1..] == buf[pos + 1..];
      assert shift / 7 == read;
      result := Grown(result, Pow128(shift / 7), b);
      pos := pos + 1;
      if b < 128 {
        return Ok((result, pos));
      }
      shift := shift + 7;
      if shift > 63 {
        return Err(VarintTooLong);
      }
      read, p := read + 1, 128 * p;
    }
    return Err(UnexpectedEnd);
  }

  // ---------------------------------------------------------------- fields

  datatype Payload =
    | Varint(n: nat)
    | Fixed64(bs: seq<byte>)
    | Bytes(bs: seq<byte>)
    | Fixed32(bs: seq<byte>)

  datatype Field = Field(number: nat, payload: Payload)

  function WireType(p: Payload): (w: nat)
    ensures w < 8
  {
    match p
    case Varint(_) => 0
    case Fixed64(_) => 1
    case Bytes(_) => 2
    case Fixed32(_) => 5
  }

  /** What an encoder can write and the reader take in. */
  predicate WellFormed(f: Field) {
    && f.number * 8 + WireType(f.payload) < VARINT_LIMIT
    && match f.payload
       case Varint(n) => n < VARINT_LIMIT
       case Fixed64(bs) => |bs| == 8
       case Bytes(bs) => |bs| < VARINT_LIMIT
       case Fixed32(bs) => |bs| == 4
  }

  function EncodePayload(p: Payload): seq<byte> {
    match p
    case Varint(n) => EncodeVarint(n)
    case Bytes(bs) => EncodeVarint(|bs|) + bs
    case Fixed64(bs) => bs
    case Fixed32(bs) => bs
  }

  function EncodeField(f: Field): (bs: seq<byte>)
    ensures bs != []
  {
    EncodeVarint(f.number * 8 + WireType(f.payload)) + EncodePayload(f.payload)
  }

  function Encode(fs: seq<Field>): seq<byte> {
    if fs == [] then [] else EncodeField(fs[0]) + Encode(fs[1..])
  }

  function Clip(bs: seq<byte>, n: nat): seq<byte> {
    if n < |bs| then bs[..n] else bs
  }

  /** A payload at the front and its length; a fixed-width one may be cut short by the end of the buffer. */
  function DecodePayload(wireType: nat, bs: seq<byte>): (r: Result<(Payload, nat), ParseError>)
    ensures r.Ok? ==> r.value.1 <= |bs|
  {
    if wireType == 0 then
      match DecodeVarint(bs, 0)
      case Err(e) => Err(e)
      case Ok((n, length)) => Ok((Varint(n), length))
    else if wireType == 2 then
      match DecodeVarint(bs, 0)
      case Err(e) => Err(e)
      case Ok((size, length)) =>
        if length + size > |bs| then Err(FieldExceedsBuffer) else Ok((Bytes(bs[length..length + size]), length + size))
    else if wireType == 5 then Ok((Fixed32(Clip(bs, 4)), |Clip(bs, 4)|))
    else if wireType == 1 then Ok((Fixed64(Clip(bs, 8)), |Clip(bs, 8)|))
    else Err(UnsupportedWireType(wireType))
  }

  function DecodeField(bs: seq<byte>): (r: Result<(Field, nat), ParseError>)
    ensures r.Ok? ==> 0 < r.value.1 <= |bs|
  {
    match DecodeVarint(bs, 0)
    case Err(e) => Err(e)
    case Ok((tag, length)) =>
      match DecodePayload(tag % 8, bs[length..])
      case Err(e) => Err(e)
      case Ok((payload, size)) => Ok((Field(tag / 8, payload), length + size))
  }

  function Decode(bs: seq<byte>): Result<seq<Field>, ParseError> {
    if bs == [] then Ok([])
    else
      match DecodeField(bs)
      case Err(e) => Err(e)
      case Ok((f, length)) => Preceded([f], Decode(bs[length..]))
  }

  function Preceded(fs: seq<Field>, r: Result<seq<Field>, ParseError>): Result<seq<Field>, ParseError> {
    match r
    case Err(e) => Err(e)
    case Ok(gs) => Ok(fs + gs)
  }

  lemma DecodeEncodedPayload(p: Payload, rest: seq<byte>)
    requires WellFormed(Field(0, p))
    ensures DecodePayload(WireType(p), EncodePayload(p) + rest) == Ok((p, |EncodePayload(p)|))
  {
    var body := EncodePayload(p) + rest;
    match p
    case Varint(n) => DecodeEncoded(n, rest, 0);
    case Bytes(bs) =>
      assert body == EncodeVarint(|bs|) + (bs + rest);
      DecodeEncoded(|bs|, bs + rest, 0);
      assert body[|EncodeVarint(|bs|)|..|EncodeVarint(|bs|)| + |bs|] == bs;
    case Fixed64(bs) => assert Clip(body, 8) == bs;
    case Fixed32(bs) => assert Clip(body, 4) == bs;
  }

  /** After its tag a field is its payload. */
  lemma TaggedField(tag: nat, body: seq<byte>)
    requires tag < VARINT_LIMIT
    ensures var payload := DecodePayload(tag % 8, body);
      DecodeField(EncodeVarint(tag) + body) ==
        if payload.Err? then Err(payload.error)
        else Ok((Field(tag / 8, payload.value.0), |EncodeVarint(tag)| + payload.value.1))
  {
    DecodeEncoded(tag, body, 0);
    assert (EncodeVarint(tag) + body)[|EncodeVarint(tag)|..] == body;
  }

  lemma TagParts(number: nat, wireType: nat)
    requires wireType < 8
    ensures (number * 8 + wireType) % 8 == wireType && (number * 8 + wireType) / 8 == number
  {
  }

  lemma WholeField(tag: nat, f: Field, body: seq<byte>, length: nat)
    requires tag < VARINT_LIMIT && tag / 8 == f.number
    requires DecodePayload(tag % 8, body) == Ok((f.payload, length))
    ensures DecodeField(EncodeVarint(tag) + body) == Ok((f, |EncodeVarint(tag)| + length))
  {
    TaggedField(tag, body);
  }

  lemma Reassociated(a: seq<byte>, b: seq<byte>, c: seq<byte>)
    ensures a + b + c == a + (b + c)
  {
  }

  lemma DecodeEncodedField(f: Field, rest: seq<byte>)
    requires WellFormed(f)
    ensures DecodeField(EncodeField(f) + rest) == Ok((f, |EncodeField(f)|))
  {
    var tag, payload := f.number * 8 + WireType(f.payload), EncodePayload(f.payload);
    TagParts(f.number, WireType(f.payload));
    DecodeEncodedPayload(f.payload, rest);
    WholeField(tag, f, payload + rest, |payload|);
    Reassociated(EncodeVarint(tag), payload, rest);
  }

  lemma DecodeStep(f: Field, rest: seq<byte>)
    requires WellFormed(f)
    ensures Decode(EncodeField(f) + rest) == Preceded([f], Decode(rest))
  {
    DecodeEncodedField(f, rest);
    assert (EncodeField(f) + rest)[|EncodeField(f)|..] == rest;
  }

  /** Decoding inverts encoding for every sequence of well-formed fields, known or not, in any order. */
  lemma {:induction false} DecodeInvertsEncode(fs: seq<Field>)
    requires forall f | f in fs :: WellFormed(f)
    ensures Decode(Encode(fs)) == Ok(fs)
  {
    if fs != [] {
      DecodeStep(fs[0], Encode(fs[1..]));
      DecodeInvertsEncode(fs[1..]);
      assert fs == [fs[0]] + fs[1..];
    }
  }

  // ---------------------------------------------------------------- the record

  datatype Signature = Signature(signatureV2: seq<byte>, data: seq<byte>, pubKey: seq<byte>)

  /** UTF-8 decoding, as `TextDecoder` does it. */
  type TextDecoder = seq<byte> -> string

  datatype Record = Record(value: string, sequence: nat, signature: Option<Signature>)

  const KEY_PREFIX: seq<byte> := [0x08, 0x01, 0x12, 0x20]

  function ExtractEd25519PubKey(wrappedKey: seq<byte>): Option<seq<byte>> {
    if |wrappedKey| == 36 && wrappedKey[..4] == KEY_PREFIX then Some(wrappedKey[4..]) else None
  }

  /** The last payload of a wire type under a field number. */
  function Last(fs: seq<Field>, number: nat, wireType: nat): (p: Option<Payload>)
    ensures p.Some? ==> WireType(p.value) == wireType
  {
    if fs == [] then None
    else
      var f := fs[|fs| - 1];
      if f.number == number && WireType(f.payload) == wireType then Some(f.payload)
      else Last(fs[..|fs| - 1], number, wireType)
  }

  function LastBytes(fs: seq<Field>, number: nat): Option<seq<byte>> {
    if Last(fs, number, 2).Some? then Some(Last(fs, number, 2).value.bs) else None
  }

  function LastVarint(fs: seq<Field>, number: nat): Option<nat> {
    if Last(fs, number, 0).Some? then Some(Last(fs, number, 0).value.n) else None
  }

  function KeyOf(fs: seq<Field>): Option<seq<byte>> {
    match LastBytes(fs, 7)
    case None => None
    case Some(wrappedKey) => ExtractEd25519PubKey(wrappedKey)
  }

  /** The record the fields describe: the last Value and Sequence, and the signature as a whole or not at all. */
  function Interpret(fs: seq<Field>, decode: TextDecoder): Result<Record, ParseError> {
    match LastBytes(fs, 1)
    case None => Err(MissingValue)
    case Some(value) => Ok(Record(
      decode(value),
      if LastVarint(fs, 5).Some? then LastVarint(fs, 5).value else 0,
      match (LastBytes(fs, 8), LastBytes(fs, 9), KeyOf(fs))
      case (Some(signatureV2), Some(data), Some(key)) => Some(Signature(signatureV2, data, key))
      case _ => None))
  }

  function Parse(buf: seq<byte>, decode: TextDecoder): Result<Record, ParseError> {
    match Decode(buf)
    case Err(e) => Err(e)
    case Ok(fs) => Interpret(fs, decode)
  }

  lemma SameSlice(buf: seq<byte>, pos: nat, start: nat, end: nat)
    requires pos <= start <= end <= |buf|
    ensures buf[pos..][start - pos..end - pos] == buf[start..end]
  {
  }

  /** A payload and the position after it; a fixed-width payload may step past the end. */
  method ReadPayload(buf: seq<byte>, wireType: nat, pos: nat) returns (r: Result<(Payload, nat), ParseError>)
    requires pos <= |buf|
    ensures match DecodePayload(wireType, buf[pos..])
      case Err(e) => r == Err(e)
      case Ok((p, length)) =>
        r.Ok? && r.value.0 == p && (r.value.1 == pos + length || (r.value.1 > pos + length == |buf|))
  {
    if wireType == 0 {
      var val := ReadVarint(buf, pos);
      if val.Err? {
        return Err(val.error);
      }
      return Ok((Varint(val.value.0), val.value.1));
    } else if wireType == 2 {
      var len := ReadVarint(buf, pos);
      if len.Err? {
        return Err(len.error);
      }
      var end := len.value.1 + len.value.0;
      if end > |buf| {
        return Err(FieldExceedsBuffer);
      }
      SameSlice(buf, pos, len.value.1, end);
      return Ok((Bytes(buf[len.value.1..end]), end));
    } else if wireType == 5 {
      return Ok((Fixed32(Clip(buf[pos..], 4)), pos + 4));
    } else if wireType == 1 {
      return Ok((Fixed64(Clip(buf[pos..], 8)), pos + 8));
    } else {
      return Err(UnsupportedWireType(wireType));
    }
  }

  /** One turn of the loop's reading: a tag and its payload. */
  method ReadField(buf: seq<byte>, start: nat) returns (r: Result<(Field, nat), ParseError>)
    requires start < |buf|
    ensures match DecodeField(buf[start..])
      case Err(e) => r == Err(e)
      case Ok((f, length)) =>
        r.Ok? && r.value.0 == f && (r.value.1 == start + length || (r.value.1 > start + length == |buf|))
  {
    var tag := ReadVarint(buf, start);
    if tag.Err? {
      return Err(tag.error);
    }
    var pos := tag.value.1;
    assert buf[start..][pos - start..] == buf[pos..];
    var payload := ReadPayload(buf, tag.value.0 % 8, pos);
    if payload.Err? {
      return Err(payload.error);
    }
    return Ok((Field(tag.value.0 / 8, payload.value.0), payload.value.1));
  }

  /** The variables the loop overwrites. */
  datatype Variables = Variables(
    value: Option<string>,
    sequence: nat,
    signatureV2: Option<seq<byte>>,
    data: Option<seq<byte>>,
    rawPubKey: Option<seq<byte>>)

  function ValueOf(fs: seq<Field>, decode: TextDecoder): Option<string> {
    if LastBytes(fs, 1).Some? then Some(decode(LastBytes(fs, 1).value)) else None
  }

  /** The variables hold what the fields read so far say. */
  ghost predicate Holds(fs: seq<Field>, v: Variables, decode: TextDecoder) {
    && v.value == ValueOf(fs, decode) && v.signatureV2 == LastBytes(fs, 8) && v.data == LastBytes(fs, 9)
    && v.sequence == (if LastVarint(fs, 5).Some? then LastVarint(fs, 5).value else 0)
    && v.rawPubKey == KeyOf(fs)
  }

  lemma LastAfter(fs: seq<Field>, f: Field, number: nat, wireType: nat)
    ensures Last(fs + [f], number, wireType)
         == if f.number == number && WireType(f.payload) == wireType then Some(f.payload)
           else Last(fs, number, wireType)
  {
    assert (fs + [f])[..|fs|] == fs;
  }

  /** Overwrite the variable a field belongs to, if any. */
  method Assign(f: Field, ghost fs: seq<Field>, before: Variables, decode: TextDecoder) returns (v: Variables)
    requires Holds(fs, before, decode)
    ensures Holds(fs + [f], v, decode)
  {
    LastAfter(fs, f, 1, 2);
    LastAfter(fs, f, 5, 0);
    LastAfter(fs, f, 7, 2);
    LastAfter(fs, f, 8, 2);
    LastAfter(fs, f, 9, 2);
    v := before;
    match f.payload
    case Varint(n) =>
      if f.number == 5 {
        v := v.(sequence := n);
      }
    case Bytes(bs) =>
      if f.number == 1 {
        v := v.(value := Some(decode(bs)));
      } else if f.number == 7 {
        v := v.(rawPubKey := ExtractEd25519PubKey(bs));
      } else if f.number == 8 {
        v := v.(signatureV2 := Some(bs));
      } else if f.number == 9 {
        v := v.(data := Some(bs));
      }
    case _ =>
  }

  method ParseIpnsRecord(buf: seq<byte>, decode: TextDecoder) returns (r: Result<Record, ParseError>)
    ensures r == Parse(buf, decode)
  {
    var v := Variables(None, 0, None, None, None);
    var pos: nat := 0;
    ghost var fs: seq<Field> := [];
    ghost var decoded := Decode(buf);
    NothingPreceded(buf);
    while pos < |buf|
      invariant decoded == Preceded(fs, DecodeFrom(buf, pos))
      invariant Holds(fs, v, decode)
      decreases |buf| - pos
    {
      var field := ReadField(buf, pos);
      if field.Err? {
        return Err(field.error);
      }
      var (f, next) := field.value;
      Advance(decoded, buf, pos, fs, f, DecodeField(buf[pos..]).value.1, next);
      v := Assign(f, fs, v, decode);
      fs := fs + [f];
      pos := next;
    }
    assert fs + [] == fs;
    r := Assemble(v, fs, decode);
  }

  method Assemble(v: Variables, ghost fs: seq<Field>, decode: TextDecoder) returns (r: Result<Record, ParseError>)
    requires Holds(fs, v, decode)
    ensures r == Interpret(fs, decode)
  {
    if v.value.None? {
      return Err(MissingValue);
    }
    if v.signatureV2.Some? && v.data.Some? && v.rawPubKey.Some? {
      var signature := Signature(v.signatureV2.value, v.data.value, v.rawPubKey.value);
      return Ok(Record(v.value.value, v.sequence, Some(signature)));
    }
    return Ok(Record(v.value.value, v.sequence, None));
  }

  function DecodeFrom(buf: seq<byte>, pos: nat): Result<seq<Field>, ParseError> {
    if pos < |buf| then Decode(buf[pos..]) else Ok([])
  }

  lemma NothingPreceded(buf: seq<byte>)
    ensures Decode(buf) == Preceded([], DecodeFrom(buf, 0))
  {
    assert buf[0..] == buf;
    PrecededByNone(Decode(buf));
  }

  lemma PrecededTwice(fs: seq<Field>, gs: seq<Field>, r: Result<seq<Field>, ParseError>)
    ensures Preceded(fs, Preceded(gs, r)) == Preceded(fs + gs, r)
  {
    if r.Ok? {
      assert fs + (gs + r.value) == fs + gs + r.value;
    }
  }

  /** One field further on. */
  lemma Advance(
    decoded: Result<seq<Field>, ParseError>, buf: seq<byte>, start: nat, fs: seq<Field>, f: Field, length: nat,
    next: nat)
    requires start < |buf| && decoded == Preceded(fs, Decode(buf[start..]))
    requires DecodeField(buf[start..]) == Ok((f, length))
    requires next == start + length || next > start + length == |buf|
    ensures decoded == Preceded(fs + [f], DecodeFrom(buf, next))
  {
    var rest := buf[start + length..];
    assert buf[start..][length..] == rest;
    DecodeOne(buf[start..], f, length);
    PrecededTwice(fs, [f], Decode(rest));
    assert Decode(rest) == DecodeFrom(buf, next);
  }

  lemma DecodeOne(bs: seq<byte>, f: Field, length: nat)
    requires bs != [] && DecodeField(bs) == Ok((f, length))
    ensures Decode(bs) == Preceded([f], Decode(bs[length..]))
  {
  }

  // ---------------------------------------------------------------- what parsing returns

  ghost predicate IsLast(fs: seq<Field>, f: Field, i: nat) {
    && i < |fs| && fs[i] == f
    && forall j :: i < j < |fs| ==> !(fs[j].number == f.number && WireType(fs[j].payload) == WireType(f.payload))
  }

  /** The payload found is that of a field after which none of its number and type comes. */
  lemma {:induction false} LastIsLast(fs: seq<Field>, f: Field)
    ensures Last(fs, f.number, WireType(f.payload)) == Some(f.payload) <==> exists i: nat :: IsLast(fs, f, i)
  {
    if fs != [] {
      var init, last := fs[..|fs| - 1], fs[|fs| - 1];
      LastIsLast(init, f);
      if last.number == f.number && WireType(last.payload) == WireType(f.payload) {
        if last == f {
          assert IsLast(fs, f, |fs| - 1);
        }
      } else {
        forall i: nat | IsLast(init, f, i)
          ensures IsLast(fs, f, i)
        {
        }
        forall i: nat | IsLast(fs, f, i)
          ensures IsLast(init, f, i)
        {
        }
      }
    }
  }

  /** Parsing the encoding of any well-formed fields gives the record they describe. */
  lemma ParseInvertsEncode(fs: seq<Field>, decode: TextDecoder)
    requires forall f | f in fs :: WellFormed(f)
    ensures Parse(Encode(fs), decode) == Interpret(fs, decode)
  {
    DecodeInvertsEncode(fs);
  }

  /** Signature fields come back together, with a 32-byte key, or not at all. */
  lemma SignatureAllOrNothing(fs: seq<Field>, decode: TextDecoder)
    ensures Interpret(fs, decode).Ok? <==> LastBytes(fs, 1).Some?
    ensures Interpret(fs, decode).Ok? ==>
      var s := Interpret(fs, decode).value.signature;
      && (s.Some? <==> LastBytes(fs, 8).Some? && LastBytes(fs, 9).Some? && KeyOf(fs).Some?)
      && (s.Some? ==> |s.value.pubKey| == 32 && LastBytes(fs, 7) == Some(KEY_PREFIX + s.value.pubKey))
  {
    if KeyOf(fs).Some? {
      var w := LastBytes(fs, 7).value;
      assert w == w[..4] + w[4..];
    }
  }

  /** No payload is found exactly when no such field is there. */
  lemma {:induction false} NoBytesIff(fs: seq<Field>, number: nat)
    ensures LastBytes(fs, number).None? <==>
      forall k :: 0 <= k < |fs| ==> !(fs[k].number == number && fs[k].payload.Bytes?)
  {
    if fs != [] {
      NoBytesIff(fs[..|fs| - 1], number);
      assert forall k :: 0 <= k < |fs| - 1 ==> fs[..|fs| - 1][k] == fs[k];
    }
  }

  lemma {:induction false} NoVarintIff(fs: seq<Field>, number: nat)
    ensures LastVarint(fs, number).None? <==>
      forall k :: 0 <= k < |fs| ==> !(fs[k].number == number && fs[k].payload.Varint?)
  {
    if fs != [] {
      NoVarintIff(fs[..|fs| - 1], number);
      assert forall k :: 0 <= k < |fs| - 1 ==> fs[..|fs| - 1][k] == fs[k];
    }
  }

  lemma LastAt(fs: seq<Field>, i: nat)
    requires i < |fs|
    requires forall k :: i < k < |fs| ==>
      !(fs[k].number == fs[i].number && WireType(fs[k].payload) == WireType(fs[i].payload))
    ensures Last(fs, fs[i].number, WireType(fs[i].payload)) == Some(fs[i].payload)
  {
    LastIsLast(fs, fs[i]);
    assert IsLast(fs, fs[i], i);
  }

  lemma LastBytesAt(fs: seq<Field>, i: nat)
    requires i < |fs| && fs[i].payload.Bytes?
    requires forall k :: i < k < |fs| ==> !(fs[k].number == fs[i].number && fs[k].payload.Bytes?)
    ensures LastBytes(fs, fs[i].number) == Some(fs[i].payload.bs)
  {
    LastAt(fs, i);
  }

  /** The last value, read from the fields alone. */
  lemma InterpretedValue(fs: seq<Field>, decode: TextDecoder)
    ensures Interpret(fs, decode).Ok? <==> LastBytes(fs, 1).Some?
    ensures Interpret(fs, decode).Err? ==> Interpret(fs, decode) == Err(MissingValue)
    ensures LastBytes(fs, 1).Some? ==> Interpret(fs, decode).value.value == decode(LastBytes(fs, 1).value)
  {
  }

  lemma LastValueParsed(fs: seq<Field>, decode: TextDecoder, bs: seq<byte>)
    requires (forall f | f in fs :: WellFormed(f)) && LastBytes(fs, 1) == Some(bs)
    ensures Parse(Encode(fs), decode).Ok? && Parse(Encode(fs), decode).value.value == decode(bs)
  {
    InterpretedValue(fs, decode);
    ParseInvertsEncode(fs, decode);
  }

  /** Signed or not, a record has the value of its last length-delimited field 1. */
  lemma ParsedValue(fs: seq<Field>, decode: TextDecoder, i: nat)
    requires forall f | f in fs :: WellFormed(f)
    requires i < |fs| && fs[i].number == 1 && fs[i].payload.Bytes?
    requires forall k :: i < k < |fs| ==> !(fs[k].number == 1 && fs[k].payload.Bytes?)
    ensures Parse(Encode(fs), decode).Ok? && Parse(Encode(fs), decode).value.value == decode(fs[i].payload.bs)
  {
    LastBytesAt(fs, i);
    LastValueParsed(fs, decode, fs[i].payload.bs);
  }

  /** And the sequence number of its last varint field 5. */
  lemma ParsedSequence(fs: seq<Field>, decode: TextDecoder, i: nat)
    requires forall f | f in fs :: WellFormed(f)
    requires i < |fs| && fs[i].number == 5 && fs[i].payload.Varint?
    requires forall k :: i < k < |fs| ==> !(fs[k].number == 5 && fs[k].payload.Varint?)
    ensures Parse(Encode(fs), decode).Ok? ==> Parse(Encode(fs), decode).value.sequence == fs[i].payload.n
  {
    ParseInvertsEncode(fs, decode);
    LastAt(fs, i);
  }

  /** A record without a sequence number has number 0. */
  lemma ParsedWithoutSequence(fs: seq<Field>, decode: TextDecoder)
    requires forall f | f in fs :: WellFormed(f)
    requires forall k :: 0 <= k < |fs| ==> !(fs[k].number == 5 && fs[k].payload.Varint?)
    ensures Parse(Encode(fs), decode).Ok? ==> Parse(Encode(fs), decode).value.sequence == 0
  {
    ParseInvertsEncode(fs, decode);
    NoVarintIff(fs, 5);
  }

  /** Well-formed fields are refused exactly when none of them is a value. */
  lemma MissingValueIff(fs: seq<Field>, decode: TextDecoder)
    requires forall f | f in fs :: WellFormed(f)
    ensures Parse(Encode(fs), decode) == Err(MissingValue) <==>
      forall k :: 0 <= k < |fs| ==> !(fs[k].number == 1 && fs[k].payload.Bytes?)
    ensures Parse(Encode(fs), decode).Err? ==> Parse(Encode(fs), decode) == Err(MissingValue)
  {
    NoBytesIff(fs, 1);
    InterpretedValue(fs, decode);
    ParseInvertsEncode(fs, decode);
  }

  /**
   The signature is that of the last length-delimited fields 8, 9 and 7, when the last of these wraps a 32-byte
   Ed25519 key; with one of them missing, or another key, there is none.
   */
  lemma ParsedSignature(fs: seq<Field>, decode: TextDecoder, i: nat, j: nat, l: nat)
    requires forall f | f in fs :: WellFormed(f)
    requires i < |fs| && fs[i].number == 8 && fs[i].payload.Bytes?
    requires j < |fs| && fs[j].number == 9 && fs[j].payload.Bytes?
    requires l < |fs| && fs[l].number == 7 && fs[l].payload.Bytes?
    requires forall k :: i < k < |fs| ==> !(fs[k].number == 8 && fs[k].payload.Bytes?)
    requires forall k :: j < k < |fs| ==> !(fs[k].number == 9 && fs[k].payload.Bytes?)
    requires forall k :: l < k < |fs| ==> !(fs[k].number == 7 && fs[k].payload.Bytes?)
    ensures Parse(Encode(fs), decode).Ok? ==>
      var wrapped := fs[l].payload.bs;
      Parse(Encode(fs), decode).value.signature ==
        if |wrapped| == 36 && wrapped[..4] == [0x08, 0x01, 0x12, 0x20]
        then Some(Signature(fs[i].payload.bs, fs[j].payload.bs, wrapped[4..])) else None
  {
    ParseInvertsEncode(fs, decode);
    LastAt(fs, i);
    LastAt(fs, j);
    LastAt(fs, l);
  }

  lemma MissingPart(fs: seq<Field>, decode: TextDecoder, number: nat)
    requires 7 <= number <= 9
    ensures LastBytes(fs, number).None? && Interpret(fs, decode).Ok? ==>
      Interpret(fs, decode).value.signature.None?
  {
    SignatureAllOrNothing(fs, decode);
  }

  lemma IncompleteSignature(fs: seq<Field>, decode: TextDecoder, number: nat)
    requires forall f | f in fs :: WellFormed(f)
    requires 7 <= number <= 9 && forall k :: 0 <= k < |fs| ==> !(fs[k].number == number && fs[k].payload.Bytes?)
    ensures Parse(Encode(fs), decode).Ok? ==> Parse(Encode(fs), decode).value.signature.None?
  {
    NoBytesIff(fs, number);
    MissingPart(fs, decode, number);
    ParseInvertsEncode(fs, decode);
  }

  /** The fields of a signed record whose value has the given bytes. */
  function RecordFields(r: Record, valueBytes: seq<byte>): (fs: seq<Field>)
    requires r.signature.Some?
    ensures |fs| == 5
  {
    var s := r.signature.value;
    [Field(1, Bytes(valueBytes)), Field(5, Varint(r.sequence)), Field(7, Bytes(KEY_PREFIX + s.pubKey)),
     Field(8, Bytes(s.signatureV2)), Field(9, Bytes(s.data))]
  }

  /** Whether a field is read, rather than skipped. */
  predicate Known(f: Field) {
    (f.payload.Bytes? && f.number in {1, 7, 8, 9}) || (f.payload.Varint? && f.number == 5)
  }

  /** All five fields are there, and no other field that is read. */
  ghost predicate Carries(fs: seq<Field>, r: Record, valueBytes: seq<byte>)
    requires r.signature.Some?
  {
    && (forall i | 0 <= i < 5 :: RecordFields(r, valueBytes)[i] in fs)
    && (forall f | f in fs && Known(f) :: f in RecordFields(r, valueBytes))
  }

  /**
   A signed record is returned whole from any sequence of fields that holds its five
   fields, in any order, among any number of fields the parser skips.
   */
  lemma SignedRecordRoundTrip(r: Record, valueBytes: seq<byte>, fs: seq<Field>, decode: TextDecoder)
    requires r.signature.Some? && |r.signature.value.pubKey| == 32 && decode(valueBytes) == r.value
    requires (forall f | f in fs :: WellFormed(f)) && Carries(fs, r, valueBytes)
    ensures Parse(Encode(fs), decode) == Ok(r)
  {
    ParseInvertsEncode(fs, decode);
    OwnFieldsLast(r, valueBytes, fs);
    var key := KEY_PREFIX + r.signature.value.pubKey;
    assert key[4..] == r.signature.value.pubKey && key[..4] == KEY_PREFIX;
  }

  lemma OwnFieldsLast(r: Record, valueBytes: seq<byte>, fs: seq<Field>)
    requires r.signature.Some? && Carries(fs, r, valueBytes)
    ensures LastBytes(fs, 1) == Some(valueBytes) && LastVarint(fs, 5) == Some(r.sequence)
    ensures LastBytes(fs, 7) == Some(KEY_PREFIX + r.signature.value.pubKey)
    ensures LastBytes(fs, 8) == Some(r.signature.value.signatureV2) && LastBytes(fs, 9) == Some(r.signature.value.data)
  {
    OwnLast(r, valueBytes, fs, 0);
    OwnLast(r, valueBytes, fs, 1);
    OwnLast(r, valueBytes, fs, 2);
    OwnLast(r, valueBytes, fs, 3);
    OwnLast(r, valueBytes, fs, 4);
  }

  lemma OwnLast(r: Record, valueBytes: seq<byte>, fs: seq<Field>, i: nat)
    requires r.signature.Some? && i < 5 && Carries(fs, r, valueBytes)
    ensures var own := RecordFields(r, valueBytes)[i]; Last(fs, own.number, WireType(own.payload)) == Some(own.payload)
  {
    OnlyLast(fs, RecordFields(r, valueBytes)[i]);
  }

  lemma {:induction false} OnlyLast(fs: seq<Field>, f: Field)
    requires f in fs
    requires forall g | g in fs && g.number == f.number && WireType(g.payload) == WireType(f.payload) :: g == f
    ensures Last(fs, f.number, WireType(f.payload)) == Some(f.payload)
  {
    var init, last := fs[..|fs| - 1], fs[|fs| - 1];
    assert fs == init + [last];
    if last != f {
      OnlyLast(init, f);
    }
  }

  // ---------------------------------------------------------------- the bytes on the wire

  /** Each byte carries seven bits, lowest first, and all but the last have the high bit set. */
  lemma {:induction false} VarintBytes(n: nat, i: nat)
    requires i < |EncodeVarint(n)|
    ensures EncodeVarint(n)[i] == n / Pow128(i) % 128 + if i + 1 < |EncodeVarint(n)| then 128 else 0
    ensures i + 1 < |EncodeVarint(n)| <==> n >= Pow128(i + 1)
    decreases n
  {
    if n >= 128 && i > 0 {
      VarintBytes(n / 128, i - 1);
      DivByBoth(n, Pow128(i - 1));
    }
  }

  lemma DivByBoth(n: nat, p: nat)
    requires p > 0
    ensures n / (128 * p) == n / 128 / p
    ensures n >= 128 * (128 * p) <==> n / 128 >= 128 * p
  {
    DivTwice(n, 128, p);
  }

  /** A field is its number and type in one varint, then a varint, eight bytes, a length and as many bytes, or four. */
  lemma WireFormat(f: Field)
    ensures EncodeField(f) ==
      match f.payload
      case Varint(n) => EncodeVarint(8 * f.number) + EncodeVarint(n)
      case Fixed64(bs) => EncodeVarint(8 * f.number + 1) + bs
      case Bytes(bs) => EncodeVarint(8 * f.number + 2) + EncodeVarint(|bs|) + bs
      case Fixed32(bs) => EncodeVarint(8 * f.number + 5) + bs
  {
  }

  /** What every encoder writes is well formed: numbers below 2^64, field numbers below 2^29 and right widths. */
  lemma WrittenIsWellFormed(f: Field)
    ensures f.number < 0x2000_0000 &&
      (match f.payload
       case Varint(n) => n < 0x1_0000_0000_0000_0000
       case Fixed64(bs) => |bs| == 8
       case Bytes(bs) => |bs| < 0x8000_0000
       case Fixed32(bs) => |bs| == 4)
      ==> WellFormed(f)
  {
    assert Pow128(5) == 0x8_0000_0000;
    assert Pow128(10) == 0x8_0000_0000 * Pow128(5);
  }

  /** Fields are written one after another. */
  lemma {:induction false} WrittenInOrder(fs: seq<Field>, i: nat)
    requires i < |fs|
    ensures Encode(fs) == Encode(fs[..i]) + EncodeField(fs[i]) + Encode(fs[i + 1..])
  {
    if i == 0 {
      assert Encode(fs[..0]) == [];
    } else {
      var head, rest := EncodeField(fs[0]), fs[1..];
      assert fs[..i][1..] == rest[..i - 1] && fs[i + 1..] == rest[i..];
      assert Encode(fs[..i]) == head + Encode(rest[..i - 1]);
      WrittenInOrder(rest, i - 1);
      Regrouped(head, Encode(rest[..i - 1]), EncodeField(fs[i]), Encode(fs[i + 1..]));
    }
  }

  lemma Regrouped(a: seq<byte>, b: seq<byte>, c: seq<byte>, d: seq<byte>)
    ensures a + (b + c + d) == a + b + c + d
  {
  }

  // ---------------------------------------------------------------- bytes that are no record

  /** Whatever comes after well-formed fields is decoded as it would be alone. */
  lemma {:induction false} DecodeAfter(fs: seq<Field>, tail: seq<byte>)
    requires forall f | f in fs :: WellFormed(f)
    ensures Decode(Encode(fs) + tail) == Preceded(fs, Decode(tail))
  {
    if fs == [] {
      assert Encode(fs) + tail == tail;
      PrecededByNone(Decode(tail));
    } else {
      var rest := fs[1..];
      assert fs == [fs[0]] + rest;
      DecodeAfter(rest, tail);
      assert Encode(fs) + tail == EncodeField(fs[0]) + (Encode(rest) + tail);
      DecodeStep(fs[0], Encode(rest) + tail);
      PrecededTwice([fs[0]], rest, Decode(tail));
    }
  }

  lemma PrecededByNone(r: Result<seq<Field>, ParseError>)
    ensures Preceded([], r) == r
  {
    if r.Ok? {
      assert [] + r.value == r.value;
    }
  }

  /** A length beyond the end of the buffer is refused as such. */
  lemma TooLongField(fs: seq<Field>, number: nat, size: nat, bs: seq<byte>, decode: TextDecoder)
    requires forall f | f in fs :: WellFormed(f)
    requires 8 * number + 2 < VARINT_LIMIT && |bs| < size < VARINT_LIMIT
    ensures Parse(Encode(fs) + (EncodeVarint(8 * number + 2) + (EncodeVarint(size) + bs)), decode)
         == Err(FieldExceedsBuffer)
  {
    var body := EncodeVarint(size) + bs;
    TaggedField(8 * number + 2, body);
    DecodeEncoded(size, bs, 0);
    NotDecoded(fs, EncodeVarint(8 * number + 2) + body, FieldExceedsBuffer);
  }

  lemma NotDecoded(fs: seq<Field>, tail: seq<byte>, e: ParseError)
    requires (forall f | f in fs :: WellFormed(f)) && tail != [] && DecodeField(tail) == Err(e)
    ensures Decode(Encode(fs) + tail) == Err(e)
  {
    DecodeAfter(fs, tail);
  }

  /** So is a wire type other than the four. */
  lemma UnknownWireType(fs: seq<Field>, number: nat, wireType: nat, bs: seq<byte>, decode: TextDecoder)
    requires forall f | f in fs :: WellFormed(f)
    requires 8 * number + wireType < VARINT_LIMIT && wireType in {3, 4, 6, 7}
    ensures Parse(Encode(fs) + (EncodeVarint(8 * number + wireType) + bs), decode) == Err(UnsupportedWireType(wireType))
  {
    TaggedField(8 * number + wireType, bs);
    TagParts(number, wireType);
    NotDecoded(fs, EncodeVarint(8 * number + wireType) + bs, UnsupportedWireType(wireType));
  }

  lemma OnlyField(bs: seq<byte>, f: Field)
    requires bs != [] && DecodeField(bs) == Ok((f, |bs|))
    ensures Decode(bs) == Ok([f])
  {
    assert bs[|bs|..] == [];
    assert [f] + [] == [f];
  }

  /** A fixed-width field that the buffer cuts off is skipped like a whole one. */
  lemma CutFixedField(fs: seq<Field>, number: nat, bs: seq<byte>, wide: bool, decode: TextDecoder)
    requires forall f | f in fs :: WellFormed(f)
    requires 8 * number + 5 < VARINT_LIMIT && |bs| < if wide then 8 else 4
    ensures Parse(Encode(fs) + (EncodeVarint(8 * number + if wide then 1 else 5) + bs), decode)
         == Parse(Encode(fs), decode)
  {
    var tag := 8 * number + if wide then 1 else 5;
    var f := Field(number, if wide then Fixed64(bs) else Fixed32(bs));
    TagParts(number, if wide then 1 else 5);
    WholeField(tag, f, bs, |bs|);
    SkippedAfter(fs, EncodeVarint(tag) + bs, f, decode);
  }

  lemma SkippedAfter(fs: seq<Field>, tail: seq<byte>, f: Field, decode: TextDecoder)
    requires (forall g | g in fs :: WellFormed(g)) && (f.payload.Fixed64? || f.payload.Fixed32?)
    requires tail != [] && DecodeField(tail) == Ok((f, |tail|))
    ensures Parse(Encode(fs) + tail, decode) == Parse(Encode(fs), decode)
  {
    OnlyField(tail, f);
    DecodeAfter(fs, tail);
    SkippedField(fs, f, decode);
    ParseInvertsEncode(fs, decode);
  }

  lemma SkippedField(fs: seq<Field>, f: Field, decode: TextDecoder)
    requires f.payload.Fixed64? || f.payload.Fixed32?
    ensures Interpret(fs + [f], decode) == Interpret(fs, decode)
  {
    LastAfter(fs, f, 1, 2);
    LastAfter(fs, f, 5, 0);
    LastAfter(fs, f, 7, 2);
    LastAfter(fs, f, 8, 2);
    LastAfter(fs, f, 9, 2);
  }

  /** A varint that the buffer cuts off, and one that goes on past ten bytes. */
  lemma {:induction false} UnendedVarint(bs: seq<byte>, read: nat)
    requires read <= 9 && forall i :: 0 <= i < |bs| ==> bs[i] >= 128
    ensures DecodeVarint(bs, read) == Err(if |bs| < 10 - read then UnexpectedEnd else VarintTooLong)
  {
    if bs != [] && read < 9 {
      UnendedVarint(bs[1..], read + 1);
    }
  }
}
