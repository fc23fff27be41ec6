/**
 The Range header as the decrypting worker reads it, against the meaning that section
 14.1.2 of RFC 9110 gives to a single byte range.
 */
module HttpRange {
  import opened Common

  // ---------------------------------------------------------------- decimal numbers

  predicate IsDigit(c: char) {
    '0' <= c <= '9'
  }

  function DigitValue(c: char): nat
    requires IsDigit(c)
  {
    (c as int) - ('0' as int)
  }

  function DigitChar(d: nat): (c: char)
    requires d < 10
    ensures IsDigit(c) && DigitValue(c) == d && c == "0123456789"[d]
  {
    (('0' as int) + d) as char
  }

  predicate AllDigits(s: string) {
    forall i :: 0 <= i < |s| ==> IsDigit(s[i])
  }

  /** How many digits the text starts with. */
  function DigitRun(s: string): (n: nat)
    ensures n <= |s| && AllDigits(s[..n]) && (n < |s| ==> !IsDigit(s[n]))
  {
    if s == [] || !IsDigit(s[0]) then 0
    else
      var n := 1 + DigitRun(s[1..]);
      assert s[1..][..n - 1] == s[1..n];
      assert s[..n] == [s[0]] + s[1..n];
      n
  }

  /** `parseInt(s, 10)` of a string of digits. */
  function ParseNat(s: string): nat
    requires AllDigits(s)
  {
    if s == [] then 0 else ParseNat(s[..|s| - 1]) * 10 + DigitValue(s[|s| - 1])
  }

  function Decimal(n: nat): (s: string)
    ensures s != [] && AllDigits(s)
  {
    if n < 10 then [DigitChar(n)] else Decimal(n / 10) + [DigitChar(n % 10)]
  }

  /** A number is written with its last decimal digit last. */
  lemma DecimalDigits(n: nat)
    ensures Decimal(n) == (if n < 10 then "" else Decimal(n / 10)) + ["0123456789"[n % 10]]
  {
  }

  lemma {:induction false} ParseDecimal(n: nat)
    ensures ParseNat(Decimal(n)) == n
  {
    if n < 10 {
      assert Decimal(n)[..0] == [];
    } else {
      ParseDecimal(n / 10);
      assert Decimal(n)[..|Decimal(n)| - 1] == Decimal(n / 10);
    }
  }

  /** A number followed by something else is read back whole. */
  lemma {:induction false} DigitRunOf(digits: string, rest: string)
    requires AllDigits(digits) && (rest == [] || !IsDigit(rest[0]))
    ensures DigitRun(digits + rest) == |digits|
  {
    if digits == [] {
      assert digits + rest == rest;
    } else {
      assert (digits + rest)[1..] == digits[1..] + rest;
      DigitRunOf(digits[1..], rest);
    }
  }

  // ---------------------------------------------------------------- the two patterns

  const UNIT: string := "bytes="

  /** `/bytes=-(\d+)/`, leftmost match: the number of bytes asked for from the end. */
  function MatchSuffix(h: string): Option<nat> {
    if h == [] then None
    else if UNIT + "-" <= h && DigitRun(h[7..]) > 0 then Some(ParseNat(h[7..][..DigitRun(h[7..])]))
    else MatchSuffix(h[1..])
  }

  /** `/bytes=(\d+)-(\d*)/`, leftmost match: the first byte and, if given, the last. */
  function MatchPrefix(h: string): Option<(nat, Option<nat>)> {
    if h == [] then None
    else if UNIT <= h && DigitRun(h[6..]) > 0 && DigitRun(h[6..]) < |h[6..]| && h[6..][DigitRun(h[6..])] == '-' then
      var first := h[6..][..DigitRun(h[6..])];
      var tail := h[6..][DigitRun(h[6..]) + 1..];
      Some((ParseNat(first), if DigitRun(tail) > 0 then Some(ParseNat(tail[..DigitRun(tail)])) else None))
    else MatchPrefix(h[1..])
  }

  /** The ranges the two patterns can name. */
  datatype RangeSpec = FromTo(first: nat, last: nat) | From(first: nat) | Suffix(length: nat)

  /** The range asked for; a header that matches neither pattern asks for none. */
  function Parsed(header: Option<string>): Option<RangeSpec> {
    if header.None? then None
    else
      match (MatchSuffix(header.value), MatchPrefix(header.value))
      case (Some(n), _) => Some(Suffix(n))
      case (None, Some((first, Some(last)))) => Some(FromTo(first, last))
      case (None, Some((first, None))) => Some(From(first))
      case (None, None) => None
  }

  /** Whether a range names byte position p of a file of the given size. */
  predicate Names(spec: RangeSpec, totalSize: nat, p: nat) {
    p < totalSize &&
    match spec
    case FromTo(first, last) => first <= p <= last
    case From(first) => first <= p
    case Suffix(length) => p >= totalSize - length
  }

  ghost predicate NamesNothing(spec: RangeSpec, totalSize: nat) {
    forall p: nat :: !Names(spec, totalSize, p)
  }

  /** start..end is exactly the set of named positions. */
  ghost predicate NamesExactly(spec: RangeSpec, totalSize: nat, start: int, end: int) {
    0 <= start <= end < totalSize && forall p: nat :: Names(spec, totalSize, p) <==> start <= p <= end
  }

  /**
   Parsing, defaulting and clamping: refused exactly when no position is named, and
   otherwise the interval of the named positions.
   */
  method SelectRange(
    rangeHeader: Option<string>, totalSize: nat)
    returns (start: int, end: int, isRangeRequest: bool, refused: bool)
    ensures isRangeRequest <==> Parsed(rangeHeader).Some?
    ensures !isRangeRequest ==> start == 0 && end == totalSize - 1 && !refused
    ensures isRangeRequest ==> (refused <==> NamesNothing(Parsed(rangeHeader).value, totalSize))
    ensures isRangeRequest && !refused ==> NamesExactly(Parsed(rangeHeader).value, totalSize, start, end)
  {
    start, end, isRangeRequest, refused := 0, totalSize - 1, false, false;
    if rangeHeader.Some? && rangeHeader.value != "" {
      var suffixMatch := MatchSuffix(rangeHeader.value);
      var prefixMatch := MatchPrefix(rangeHeader.value);
      if suffixMatch.Some? {
        isRangeRequest := true;
        start := if totalSize > suffixMatch.value then totalSize - suffixMatch.value else 0;
        end := totalSize - 1;
      } else if prefixMatch.Some? {
        isRangeRequest := true;
        start := prefixMatch.value.0;
        end := if prefixMatch.value.1.Some? then prefixMatch.value.1.value else totalSize - 1;
      }
      if isRangeRequest {
        if end >= totalSize {
          end := totalSize - 1;
        }
        if start > end {
          refused := true;
        } else {
          assert Names(Parsed(rangeHeader).value, totalSize, start);
        }
      }
    }
  }

  // ---------------------------------------------------------------- headers as clients write them

  function Render(spec: RangeSpec): string {
    match spec
    case FromTo(first, last) => UNIT + Decimal(first) + "-" + Decimal(last)
    case From(first) => UNIT + Decimal(first) + "-"
    case Suffix(length) => UNIT + "-" + Decimal(length)
  }

  /** A header that names the unit nowhere asks for no range. */
  lemma {:induction false} NoUnitNoMatch(h: string)
    requires forall before: string, after: string :: before + "bytes=" + after != h
    ensures MatchSuffix(h).None? && MatchPrefix(h).None? && Parsed(Some(h)).None?
  {
    if h != [] {
      assert [] + "bytes=" + h[if |h| < 6 then |h| else 6..] != h;
      assert !(UNIT <= h) && !(UNIT + "-" <= h);
      forall before: string, after: string
        ensures before + "bytes=" + after != h[1..]
      {
        assert [h[0]] + (before + "bytes=" + after) == [h[0]] + before + "bytes=" + after;
        assert h == [h[0]] + h[1..];
      }
      NoUnitNoMatch(h[1..]);
    }
  }

  lemma NoFirstLetter(h: string)
    requires forall i :: 0 <= i < |h| ==> h[i] != 'b'
    ensures MatchSuffix(h).None? && MatchPrefix(h).None?
  {
    forall before: string, after: string
      ensures before + "bytes=" + after != h
    {
      assert (before + "bytes=" + after)[|before|] == 'b';
    }
    NoUnitNoMatch(h);
  }

  lemma RenderedNotSuffix(digits: string, tail: string)
    requires digits != [] && AllDigits(digits) && AllDigits(tail)
    ensures MatchSuffix(UNIT + digits + "-" + tail).None?
  {
    var h := UNIT + digits + "-" + tail;
    assert h[6] == digits[0];
    assert h[1..] == "ytes=" + digits + "-" + tail;
    NoFirstLetter(h[1..]);
  }

  lemma RenderedPrefix(digits: string, tail: string)
    requires digits != [] && AllDigits(digits) && AllDigits(tail)
    ensures MatchPrefix(UNIT + digits + "-" + tail)
         == Some((ParseNat(digits), if tail == "" then None else Some(ParseNat(tail))))
  {
    var h := UNIT + digits + "-" + tail;
    assert h[6..] == digits + ("-" + tail);
    DigitRunOf(digits, "-" + tail);
    assert h[6..][..|digits|] == digits;
    assert h[6..][|digits| + 1..] == tail;
    assert tail + [] == tail;
    DigitRunOf(tail, []);
    assert tail[..|tail|] == tail;
  }

  /** Every range a client can write in one of the three forms is read back as meant. */
  lemma ParsedRendered(spec: RangeSpec)
    ensures Parsed(Some(Render(spec))) == Some(spec)
  {
    match spec
    case FromTo(first, last) =>
      RenderedNotSuffix(Decimal(first), Decimal(last));
      RenderedPrefix(Decimal(first), Decimal(last));
      ParseDecimal(first);
      ParseDecimal(last);
    case From(first) =>
      RenderedNotSuffix(Decimal(first), "");
      RenderedPrefix(Decimal(first), "");
      ParseDecimal(first);
      assert Render(spec) == UNIT + Decimal(first) + "-" + "";
    case Suffix(length) =>
      var digits := Decimal(length);
      assert Render(spec)[7..] == digits + [];
      DigitRunOf(digits, []);
      assert digits[..|digits|] == digits;
      ParseDecimal(length);
  }

  /**
   A written range is refused exactly when it starts past the file, asks for no suffix bytes, or ends
   before it starts.
   */
  lemma RefusedIff(spec: RangeSpec, totalSize: nat)
    ensures Parsed(Some(Render(spec))) == Some(spec)
    ensures NamesNothing(spec, totalSize) <==>
      match spec
      case FromTo(first, last) => first >= totalSize || last < first
      case From(first) => first >= totalSize
      case Suffix(length) => totalSize == 0 || length == 0
  {
    ParsedRendered(spec);
    match spec
    case FromTo(first, last) => assert first < totalSize && first <= last ==> Names(spec, totalSize, first);
    case From(first) => assert first < totalSize ==> Names(spec, totalSize, first);
    case Suffix(length) => assert totalSize > 0 && length > 0 ==> Names(spec, totalSize, totalSize - 1);
  }

  /** The bytes that a range written in one of the three forms selects. */
  lemma WrittenRange(spec: RangeSpec, totalSize: nat, start: int, end: int)
    ensures Parsed(Some(match spec
      case FromTo(first, last) => "bytes=" + Decimal(first) + "-" + Decimal(last)
      case From(first) => "bytes=" + Decimal(first) + "-"
      case Suffix(length) => "bytes=-" + Decimal(length))) == Some(spec)
    ensures NamesExactly(spec, totalSize, start, end) <==>
      && 0 <= start <= end < totalSize
      && (match spec
          case FromTo(first, last) => start == first && end == if last < totalSize then last else totalSize - 1
          case From(first) => start == first && end == totalSize - 1
          case Suffix(length) =>
            start == (if length < totalSize then totalSize - length else 0) && end == totalSize - 1)
  {
    ParsedRendered(spec);
    assert "bytes=-" == UNIT + "-";
    if 0 <= start <= end < totalSize {
      assert Names(spec, totalSize, start) && Names(spec, totalSize, end) ==> true;
      if NamesExactly(spec, totalSize, start, end) {
        assert start > 0 ==> !Names(spec, totalSize, start - 1);
        assert !Names(spec, totalSize, end + 1);
      }
    }
  }
}
