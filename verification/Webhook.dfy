/** Webhook signatures of webhook/webhook.go: the printer, the header parser and the verifier. The
    HMAC is any function of a secret and a message with 32-byte results. */
module Webhook {
  import opened Wrappers
  import opened Int64
  import opened Text

  type Byte = b: int | 0 <= b < 256

  const DIGEST_SIZE := 32

  type Digest = d: seq<Byte> | |d| == DIGEST_SIZE witness seq(DIGEST_SIZE, _ => 0)

  type Mac = (seq<Byte>, seq<Byte>) -> Digest

  const MIN_SECRET_BYTES := 32
  const MAX_SECRET_BYTES := 1024
  const MAX_SECRETS := 8
  const SECOND := 1_000_000_000
  const DEFAULT_MAX_AGE := 300 * SECOND
  const MAX_AGE := 86400 * SECOND
  const DEFAULT_MAX_BODY_BYTES := 0x10_0000
  const MAX_BODY_BYTES := 0x80_0000
  const MAX_HEADER_BYTES := 1024
  const MAX_SIGNATURES := 8

  datatype Error = InvalidSecret | InvalidTimestamp | InvalidSignature | StaleTimestamp | BodyTooLarge

  datatype Result<+T> = Ok(value: T) | Err(error: Error)

  // ---- time ----

  /** A time.Time: seconds since January 1 of year 1 as an int64, and nanoseconds. */
  datatype RawTime = RawTime(sec: int, nsec: int)

  type Time = t: RawTime | MIN_INT64 <= t.sec <= MAX_INT64 && 0 <= t.nsec < SECOND witness RawTime(0, 0)

  const UNIX_TO_INTERNAL := 62135596800

  predicate IsZero(t: Time) {
    t.sec == 0 && t.nsec == 0
  }

  /** time.Unix(unix, 0). */
  function FromUnix(unix: int): Time {
    RawTime(Wrap(unix + UNIX_TO_INTERNAL), 0)
  }

  function Unix(t: Time): int {
    Wrap(t.sec - UNIX_TO_INTERNAL)
  }

  /** A duration in whole seconds and the rest, cut off toward zero as Go's division does. */
  function WholeSeconds(d: int): int {
    if d >= 0 then d / SECOND else -(-d / SECOND)
  }

  /** The seconds after adding d: a sum outside int64 saturates. */
  function AddSeconds(sec: int, d: int): (r: int)
    ensures MIN_INT64 <= r <= MAX_INT64
  {
    var sum := Wrap(sec + d);
    if (sum > sec) == (d > 0) then sum else if d > 0 then MAX_INT64 else -MAX_INT64
  }

  /** time.Time.Add. */
  function Add(t: Time, d: int): Time {
    var nsec := t.nsec + (d - WholeSeconds(d) * SECOND);
    var carry := if nsec >= SECOND then 1 else if nsec < 0 then -1 else 0;
    RawTime(AddSeconds(t.sec, WholeSeconds(d) + carry), nsec - carry * SECOND)
  }

  /** time.Time.Sub: the wrapped difference if adding it gives t back, and else the end of int64 on
      t's side. */
  function Sub(t: Time, u: Time): int {
    var d := Wrap(Wrap(t.sec - u.sec) * SECOND + (t.nsec - u.nsec));
    if Add(u, d) == t then d
    else if t.sec < u.sec || (t.sec == u.sec && t.nsec < u.nsec) then MIN_INT64
    else MAX_INT64
  }

  function Nanoseconds(t: Time): int {
    t.sec * SECOND + t.nsec
  }

  /** Whatever wraps or saturates on the way, a difference is the distance, or the end of int64 that
      is nearest to it. */
  lemma SubIsDifference(t: Time, u: Time)
    ensures Sub(t, u) == Clamp(Nanoseconds(t) - Nanoseconds(u))
  {
    var distance := Nanoseconds(t) - Nanoseconds(u);
    var d := Wrap(Wrap(t.sec - u.sec) * SECOND + (t.nsec - u.nsec));
  }

  /** Neither too old nor too far in the future. */
  predicate Fresh(now: Time, timestamp: Time, maxAge: int) {
    -maxAge <= Sub(now, timestamp) <= maxAge
  }

  /** The distance between two instants is within a limit. */
  predicate Near(t: Time, u: Time, limit: int) {
    -limit <= Nanoseconds(t) - Nanoseconds(u) <= limit
  }

  /** Freshness is distance, for all instants. */
  lemma FreshIsDistance(now: Time, timestamp: Time, maxAge: int)
    requires 0 <= maxAge <= MAX_AGE
    ensures Fresh(now, timestamp, maxAge) <==> Near(now, timestamp, maxAge)
  {
    SubIsDifference(now, timestamp);
  }

  /** The parsed timestamp gives its number back, whatever wraps in between. */
  lemma UnixRoundTrip(unix: int)
    requires MIN_INT64 <= unix <= MAX_INT64
    ensures Unix(FromUnix(unix)) == unix
  {
    WrapTwice(unix, UNIX_TO_INTERNAL);
  }

  lemma Truncated(t: Time)
    ensures FromUnix(Unix(t)) == RawTime(t.sec, 0)
  {
    WrapTwice(t.sec, UNIX_TO_INTERNAL);
  }

  // ---- decimal ----

  function DigitChar(n: nat): char
    requires n < 10
  {
    '0' + n as char
  }

  predicate IsDigit(c: char) {
    '0' <= c <= '9'
  }

  function DigitValue(c: char): nat
    requires IsDigit(c)
  {
    (c - '0') as nat
  }

  predicate AllDigits(s: string) {
    forall i :: 0 <= i < |s| ==> IsDigit(s[i])
  }

  /** strconv.FormatInt(n, 10) for a non-negative number. */
  function Decimal(n: nat): (s: string)
    ensures s != "" && AllDigits(s)
    ensures n > 0 ==> s[0] != '0'
    ensures n == 0 ==> s == "0"
  {
    if n < 10 then [DigitChar(n)] else Decimal(n / 10) + [DigitChar(n % 10)]
  }

  function DecimalValue(s: string): nat
    requires AllDigits(s)
  {
    if s == "" then 0 else 10 * DecimalValue(s[..|s| - 1]) + DigitValue(s[|s| - 1])
  }

  predicate Canonical(s: string) {
    s != "" && AllDigits(s) && (|s| > 1 ==> s[0] != '0')
  }

  lemma {:induction false} ValueOfDecimal(n: nat)
    ensures DecimalValue(Decimal(n)) == n && Canonical(Decimal(n))
  {
    if n < 10 {
      assert Decimal(n)[..0] == "";
    } else {
      ValueOfDecimal(n / 10);
      var s := Decimal(n);
      assert s[..|s| - 1] == Decimal(n / 10);
    }
  }

  lemma {:induction false} DecimalOfValue(s: string)
    requires Canonical(s)
    ensures Decimal(DecimalValue(s)) == s
    ensures |s| > 1 ==> DecimalValue(s) >= 10
  {
    if |s| == 1 {
      assert s[..0] == "";
    } else {
      var head := s[..|s| - 1];
      DecimalOfValue(head);
      assert |head| == 1 ==> head[..0] == "" && DecimalValue(head) == DigitValue(head[0]);
      assert DecimalValue(head) > 0;
      assert s == head + [s[|s| - 1]];
    }
  }

  type Seconds = n: int | 0 <= n <= MAX_INT64

  const DIGITS := "0123456789"

  /** The digits are the usual ones, and the last digit comes last. */
  lemma DecimalDigits(n: nat)
    ensures n < 10 ==> Decimal(n) == [DIGITS[n]]
    ensures n >= 10 ==> Decimal(n) == Decimal(n / 10) + [DIGITS[n % 10]]
  {
  }

  /** parseUnix. */
  function ParseUnix(value: string): Option<Seconds> {
    if !Canonical(value) then None
    else if DecimalValue(value) > MAX_INT64 then None
    else Some(DecimalValue(value))
  }

  /** Parsing and printing timestamps are inverse. */
  lemma UnixCodec(value: string, n: Seconds)
    ensures ParseUnix(value) == Some(n) <==> value == Decimal(n)
  {
    ValueOfDecimal(n);
    if Canonical(value) {
      DecimalOfValue(value);
    }
  }

  // ---- hexadecimal ----

  function HexChar(n: nat): char
    requires n < 16
  {
    if n < 10 then '0' + n as char else 'a' + (n - 10) as char
  }

  function HexValue(c: char): Option<nat> {
    if '0' <= c <= '9' then Some((c - '0') as nat)
    else if 'a' <= c <= 'f' then Some((c - 'a') as nat + 10)
    else if 'A' <= c <= 'F' then Some((c - 'A') as nat + 10)
    else None
  }

  /** hex.EncodeToString. */
  function Hex(bytes: seq<Byte>): (s: string)
    ensures |s| == 2 * |bytes|
  {
    if bytes == [] then "" else [HexChar(bytes[0] / 16), HexChar(bytes[0] % 16)] + Hex(bytes[1..])
  }

  /** hex.DecodeString: an odd length or another character is an error. */
  function Unhex(s: string): (r: Option<seq<Byte>>)
    ensures r.Some? ==> |s| == 2 * |r.value|
  {
    if s == "" then Some([])
    else if |s| == 1 || HexValue(s[0]).None? || HexValue(s[1]).None? || Unhex(s[2..]).None? then None
    else Some([HexByte(HexValue(s[0]).value, HexValue(s[1]).value)] + Unhex(s[2..]).value)
  }

  function HexByte(high: nat, low: nat): Byte
    requires high < 16 && low < 16
  {
    16 * high + low
  }

  const HEX_DIGITS := "0123456789abcdef"

  /** Two digits for each byte, in order, the high one first. */
  lemma {:induction false} HexAt(bytes: seq<Byte>, i: nat)
    requires i < |bytes|
    ensures Hex(bytes)[2 * i] == HEX_DIGITS[bytes[i] / 16] && Hex(bytes)[2 * i + 1] == HEX_DIGITS[bytes[i] % 16]
  {
    if i > 0 {
      HexAt(bytes[1..], i - 1);
    }
  }

  /** Capital digits are read as small ones. */
  lemma CapitalDigits(c: char)
    requires 'A' <= c <= 'F'
    ensures HexValue(c) == HexValue('a' + (c - 'A'))
  {
  }

  predicate AllHex(s: string) {
    forall i :: 0 <= i < |s| ==> HexValue(s[i]).Some?
  }

  lemma {:induction false} UnhexOfHex(bytes: seq<Byte>)
    ensures Unhex(Hex(bytes)) == Some(bytes)
  {
    if bytes != [] {
      UnhexOfHex(bytes[1..]);
      assert Hex(bytes)[2..] == Hex(bytes[1..]);
      assert bytes == [bytes[0]] + bytes[1..];
    }
  }

  lemma {:induction false} UnhexAccepts(s: string)
    ensures Unhex(s).Some? <==> |s| % 2 == 0 && AllHex(s)
  {
    hide HexValue;
    if |s| >= 2 {
      UnhexAccepts(s[2..]);
      AllHexSplit(s);
    }
  }

  lemma AllHexSplit(s: string)
    requires |s| >= 2
    ensures AllHex(s) <==> HexValue(s[0]).Some? && HexValue(s[1]).Some? && AllHex(s[2..])
  {
    hide HexValue;
    assert forall i :: 2 <= i < |s| ==> s[i] == s[2..][i - 2];
  }

  // ---- the header parser ----

  /** How many bytes a character takes in UTF-8. */
  function CharBytes(c: char): nat {
    if c < '\U{80}' then 1 else if c < '\U{800}' then 2 else if c < '\U{10000}' then 3 else 4
  }

  /** len(s) of a Go string. */
  function ByteLength(s: string): nat {
    if s == "" then 0 else CharBytes(s[0]) + ByteLength(s[1..])
  }

  /** What the loop of parseHeader has collected. */
  datatype Header = Header(unix: Option<Seconds>, signatures: seq<Digest>)

  /** One comma-separated part. */
  function ParsePart(h: Header, part: string): Result<Header> {
    var field := TrimSpace(part);
    var n := Until(field, '=');
    if n == |field| || field[n + 1..] == "" then Err(InvalidSignature)
    else
      var key, value := field[..n], field[n + 1..];
      if key == "t" then ParseStamp(h, value)
      else if key == "v1" then ParseSignature(h, value)
      else Err(InvalidSignature)
  }

  function ParseStamp(h: Header, value: string): Result<Header> {
    if h.unix.Some? then Err(InvalidSignature)
    else if ParseUnix(value).None? then Err(InvalidTimestamp)
    else Ok(h.(unix := ParseUnix(value)))
  }

  function ParseSignature(h: Header, value: string): Result<Header> {
    if |h.signatures| == MAX_SIGNATURES || ByteLength(value) != 2 * DIGEST_SIZE then Err(InvalidSignature)
    else if Unhex(value).None? || |Unhex(value).value| != DIGEST_SIZE then Err(InvalidSignature)
    else Ok(h.(signatures := h.signatures + [Unhex(value).value]))
  }

  function ParseParts(h: Header, parts: seq<string>): Result<Header>
    decreases |parts|
  {
    if parts == [] then Ok(h)
    else if ParsePart(h, parts[0]).Err? then ParsePart(h, parts[0])
    else ParseParts(ParsePart(h, parts[0]).value, parts[1..])
  }

  const NOTHING := Header(None, [])

  function ParsedHeader(header: string): Result<(Seconds, seq<Digest>)> {
    if header == "" || ByteLength(header) > MAX_HEADER_BYTES then Err(InvalidSignature)
    else
      match ParseParts(NOTHING, Split(header, ','))
      case Err(e) => Err(e)
      case Ok(h) =>
        if h.unix.None? || h.signatures == [] then Err(InvalidSignature) else Ok((h.unix.value, h.signatures))
  }

  method ParseHeader(header: string) returns (r: Result<(Seconds, seq<Digest>)>)
    ensures r == ParsedHeader(header)
  {
    hide ByteLength, Unhex, ParseUnix, TrimSpace;
    if header == "" || ByteLength(header) > MAX_HEADER_BYTES {
      return Err(InvalidSignature);
    }
    var unix, timeFound: bool, signatures: seq<Digest> := 0, false, [];
    var parts := Split(header, ',');
    for i := 0 to |parts|
      invariant ParseParts(NOTHING, parts)
                == ParseParts(Header(if timeFound then Some(unix) else None, signatures), parts[i..])
    {
      assert parts[i..][1..] == parts[i + 1..];
      var field := TrimSpace(parts[i]);
      var n := Until(field, '=');
      if n == |field| || field[n + 1..] == "" {
        return Err(InvalidSignature);
      }
      var key, value := field[..n], field[n + 1..];
      if key == "t" {
        if timeFound {
          return Err(InvalidSignature);
        }
        var parsed := ParseUnix(value);
        if parsed.None? {
          return Err(InvalidTimestamp);
        }
        unix, timeFound := parsed.value, true;
      } else if key == "v1" {
        if |signatures| == MAX_SIGNATURES || ByteLength(value) != 2 * DIGEST_SIZE {
          return Err(InvalidSignature);
        }
        var signature := Unhex(value);
        if signature.None? || |signature.value| != DIGEST_SIZE {
          return Err(InvalidSignature);
        }
        signatures := signatures + [signature.value];
      } else {
        return Err(InvalidSignature);
      }
    }
    if !timeFound || signatures == [] {
      return Err(InvalidSignature);
    }
    return Ok((unix, signatures));
  }

  // ---- the grammar ----

  /** 64 hexadecimal digits. */
  type HexText = s: string | |s| == 2 * DIGEST_SIZE && AllHex(s) witness seq(2 * DIGEST_SIZE, _ => '0')

  function DigestOf(hex: HexText): (d: Digest)
    ensures Unhex(hex) == Some(d)
  {
    UnhexAccepts(hex);
    Unhex(hex).value
  }

  /** A header is a comma list of items, each with white space around it. */
  datatype Item = Stamp(unix: Seconds) | Signature(hex: HexText)

  function ItemText(item: Item): string {
    match item
    case Stamp(unix) => "t=" + Decimal(unix)
    case Signature(hex) => "v1=" + hex
  }

  ghost predicate Padded(part: string, text: string) {
    exists left, right :: AllSpace(left) && AllSpace(right) && part == left + text + right
  }

  ghost predicate ListParts(parts: seq<string>, items: seq<Item>) {
    && |parts| == |items|
    && forall i :: 0 <= i < |items| ==> Padded(parts[i], ItemText(items[i]))
  }

  /** The header is the list of items, in order. */
  ghost predicate Lists(header: string, items: seq<Item>) {
    ListParts(Split(header, ','), items)
  }

  function Stamps(items: seq<Item>): seq<Seconds> {
    if items == [] then []
    else (if items[0].Stamp? then [items[0].unix] else []) + Stamps(items[1..])
  }

  function Signatures(items: seq<Item>): seq<Digest> {
    if items == [] then []
    else (if items[0].Signature? then [DigestOf(items[0].hex)] else []) + Signatures(items[1..])
  }

  /** One timestamp and one to eight signatures, in any order. */
  predicate Complete(items: seq<Item>) {
    |Stamps(items)| == 1 && 1 <= |Signatures(items)| <= MAX_SIGNATURES
  }

  predicate Ascii(s: string) {
    forall i :: 0 <= i < |s| ==> s[i] < '\U{80}'
  }

  lemma {:induction false} AsciiBytes(s: string)
    requires Ascii(s)
    ensures ByteLength(s) == |s|
  {
    if s != "" {
      AsciiBytes(s[1..]);
    }
  }

  /** What an accepted part adds. */
  function Applied(h: Header, item: Item): Option<Header> {
    match item
    case Stamp(unix) => if h.unix.Some? then None else Some(h.(unix := Some(unix)))
    case Signature(hex) =>
      if |h.signatures| == MAX_SIGNATURES then None
      else Some(h.(signatures := h.signatures + [DigestOf(hex)]))
  }

  lemma FieldOf(key: string, value: string)
    requires Free(key, '=')
    ensures var field := key + "=" + value;
            && Until(field, '=') == |key|
            && field[..|key|] == key && field[|key| + 1..] == value
  {
    UntilOf(key, '=', "=" + value);
    assert key + "=" + value == key + ("=" + value);
  }

  /** ParsePart on a field whose key and value are known. */
  lemma PartOfField(h: Header, part: string, key: string, value: string)
    requires TrimSpace(part) == key + "=" + value && Free(key, '=') && value != ""
    ensures key == "t" ==> ParsePart(h, part) == ParseStamp(h, value)
    ensures key == "v1" ==> ParsePart(h, part) == ParseSignature(h, value)
  {
    hide ParseStamp, ParseSignature, TrimSpace, Until, Free;
    FieldOf(key, value);
  }

  /** A padded item is accepted, and adds itself, unless there is a timestamp already or the list of
      signatures is full. */
  lemma ItemAccepted(h: Header, part: string, item: Item)
    requires Padded(part, ItemText(item))
    ensures Applied(h, item).Some? ==> ParsePart(h, part) == Ok(Applied(h, item).value)
    ensures Applied(h, item).None? ==> ParsePart(h, part) == Err(InvalidSignature)
  {
    hide ByteLength, Unhex, ParseUnix, ParsePart, TrimSpace, Decimal;
    TrimmedItem(part, item);
    match item {
      case Stamp(unix) =>
        assert ItemText(item) == "t" + "=" + Decimal(unix);
        UnixCodec(Decimal(unix), unix);
        PartOfField(h, part, "t", Decimal(unix));
      case Signature(hex) =>
        assert ItemText(item) == "v1" + "=" + hex;
        AsciiBytes(hex);
        PartOfField(h, part, "v1", hex);
    }
  }

  lemma TrimmedItem(part: string, item: Item)
    requires Padded(part, ItemText(item))
    ensures TrimSpace(part) == ItemText(item)
  {
    var text := ItemText(item);
    var left, right :| AllSpace(left) && AllSpace(right) && part == left + text + right;
    ItemEnds(item);
    TrimSpaceOfPadded(left, text, right);
  }

  lemma ItemEnds(item: Item)
    ensures var text := ItemText(item); text != "" && !IsSpace(text[0]) && !IsSpace(text[|text| - 1])
  {
    var text := ItemText(item);
    match item
    case Stamp(unix) => assert text[|text| - 1] == Decimal(unix)[|Decimal(unix)| - 1];
    case Signature(hex) => assert text[|text| - 1] == hex[|hex| - 1];
  }

  /** An accepted part is a key and a value around the first equals sign. */
  lemma AcceptedField(h: Header, part: string) returns (key: string, value: string)
    requires ParsePart(h, part).Ok?
    ensures TrimSpace(part) == key + "=" + value && Free(key, '=') && value != ""
    ensures key == "t" || key == "v1"
  {
    hide ByteLength, Unhex, ParseUnix, TrimSpace;
    var field := TrimSpace(part);
    var n := Until(field, '=');
    key, value := field[..n], field[n + 1..];
  }

  lemma SignatureIsHex(h: Header, value: string)
    requires ParseSignature(h, value).Ok?
    ensures |value| == 2 * DIGEST_SIZE && AllHex(value)
    ensures Applied(h, Signature(value)) == Some(ParseSignature(h, value).value)
  {
    hide ByteLength, Unhex, AllHex;
    UnhexAccepts(value);
  }

  /** Every accepted part is a padded item. */
  lemma AcceptedIsItem(h: Header, part: string) returns (item: Item)
    requires ParsePart(h, part).Ok?
    ensures Padded(part, ItemText(item))
    ensures Applied(h, item) == Some(ParsePart(h, part).value)
  {
    hide ParseSignature, Decimal, ParsePart, ParseUnix, TrimSpace, DigestOf, AllHex;
    var key, value := AcceptedField(h, part);
    PartOfField(h, part, key, value);
    if key == "t" {
      item := Stamp(ParseUnix(value).value);
      UnixCodec(value, item.unix);
    } else {
      SignatureIsHex(h, value);
      item := Signature(value);
    }
    var left, right := TrimSpaceShape(part);
    assert TrimSpace(part) == ItemText(item);
  }

  /** What the loop makes of a list of items. */
  function AppliedAll(h: Header, items: seq<Item>): Option<Header>
    decreases |items|
  {
    if items == [] then Some(h)
    else if Applied(h, items[0]).None? then None
    else AppliedAll(Applied(h, items[0]).value, items[1..])
  }

  lemma {:induction false} ListAccepted(h: Header, parts: seq<string>, items: seq<Item>)
    requires ListParts(parts, items)
    ensures ParseParts(h, parts)
            == if AppliedAll(h, items).Some? then Ok(AppliedAll(h, items).value) else Err(InvalidSignature)
    decreases |parts|
  {
    hide ParsePart, Applied, ItemText, Padded;
    if parts != [] {
      ItemAccepted(h, parts[0], items[0]);
      if Applied(h, items[0]).Some? {
        ListAccepted(Applied(h, items[0]).value, parts[1..], items[1..]);
      }
    }
  }

  lemma {:induction false} AcceptedIsList(h: Header, parts: seq<string>) returns (items: seq<Item>)
    requires ParseParts(h, parts).Ok?
    ensures ListParts(parts, items)
    decreases |parts|
  {
    hide ParsePart, ItemText, Padded;
    if parts == [] {
      items := [];
    } else {
      var item := AcceptedIsItem(h, parts[0]);
      var rest := AcceptedIsList(ParsePart(h, parts[0]).value, parts[1..]);
      items := [item] + rest;
    }
  }

  /** The loop's state counts the items: at most one timestamp, at most eight signatures. */
  lemma {:induction false} AppliedCounts(h: Header, items: seq<Item>)
    requires |h.signatures| <= MAX_SIGNATURES
    ensures AppliedAll(h, items).Some? <==>
            (if h.unix.Some? then 1 else 0) + |Stamps(items)| <= 1
            && |h.signatures| + |Signatures(items)| <= MAX_SIGNATURES
    ensures AppliedAll(h, items).Some? ==>
            AppliedAll(h, items).value
            == Header(if Stamps(items) == [] then h.unix else Some(Stamps(items)[0]), h.signatures + Signatures(items))
    decreases |items|
  {
    hide DigestOf, Stamps, Signatures;
    if items == [] {
      CountsNothing();
      assert h.signatures + [] == h.signatures;
    } else {
      var item, rest := items[0], items[1..];
      CountsFirst(items);
      if Applied(h, item).Some? {
        var next := Applied(h, item).value;
        AppliedCounts(next, rest);
        if item.Signature? {
          assert h.signatures + ([DigestOf(item.hex)] + Signatures(rest)) == next.signatures + Signatures(rest);
        }
      }
    }
  }

  lemma CountsNothing()
    ensures Stamps([]) == [] && Signatures([]) == []
  {
  }

  lemma CountsFirst(items: seq<Item>)
    requires items != []
    ensures items[0].Stamp? ==>
              Stamps(items) == [items[0].unix] + Stamps(items[1..]) && Signatures(items) == Signatures(items[1..])
    ensures items[0].Signature? ==>
              && Stamps(items) == Stamps(items[1..])
              && Signatures(items) == [DigestOf(items[0].hex)] + Signatures(items[1..])
  {
    hide DigestOf;
    assert [] + Stamps(items[1..]) == Stamps(items[1..]);
    assert [] + Signatures(items[1..]) == Signatures(items[1..]);
  }

  predicate Bounded(header: string) {
    header != "" && ByteLength(header) <= MAX_HEADER_BYTES
  }

  lemma ListOutcome(header: string, items: seq<Item>)
    requires Bounded(header) && Lists(header, items)
    ensures ParsedHeader(header)
            == if Complete(items) then Ok((Stamps(items)[0], Signatures(items))) else Err(InvalidSignature)
  {
    hide ByteLength, Split, Applied, AppliedAll, Stamps, Signatures, ParseParts, ListParts;
    ListAccepted(NOTHING, Split(header, ','), items);
    AppliedCounts(NOTHING, items);
    assert [] + Signatures(items) == Signatures(items);
  }

  /** parseHeader accepts exactly the bounded comma lists with one canonical timestamp and one to
      eight signatures, and yields what they list. */
  lemma HeaderGrammar(header: string, unix: Seconds, signatures: seq<Digest>)
    ensures ParsedHeader(header) == Ok((unix, signatures)) <==>
            Bounded(header)
            && exists items ::
                 Lists(header, items) && Complete(items)
                 && Stamps(items) == [unix] && Signatures(items) == signatures
  {
    hide ByteLength, Split, Stamps, Signatures, ParseParts, ListParts;
    if ParsedHeader(header) == Ok((unix, signatures)) {
      var items := AcceptedIsList(NOTHING, Split(header, ','));
      ListOutcome(header, items);
      assert Stamps(items) == [unix];
    }
    forall items | Bounded(header) && Lists(header, items) && Complete(items)
                   && Stamps(items) == [unix] && Signatures(items) == signatures
      ensures ParsedHeader(header) == Ok((unix, signatures))
    {
      ListOutcome(header, items);
    }
  }

  /** Part k, after k items without a timestamp, is a timestamp that is no decimal form. */
  ghost predicate BadStamp(parts: seq<string>, k: nat, items: seq<Item>, value: string) {
    && k < |parts| && ListParts(parts[..k], items)
    && Stamps(items) == [] && |Signatures(items)| <= MAX_SIGNATURES
    && TrimSpace(parts[k]) == "t=" + value && value != ""
    && forall n: Seconds :: value != Decimal(n)
  }

  ghost predicate HasBadStamp(parts: seq<string>) {
    exists k, items, value :: BadStamp(parts, k, items, value)
  }

  lemma BadPart(h: Header, part: string) returns (value: string)
    requires ParsePart(h, part) == Err(InvalidTimestamp)
    ensures h.unix.None? && TrimSpace(part) == "t=" + value && value != ""
    ensures forall n: Seconds :: value != Decimal(n)
  {
    hide ByteLength, Unhex, ParseUnix, TrimSpace, Decimal;
    var field := TrimSpace(part);
    var n := Until(field, '=');
    value := field[n + 1..];
    assert field == field[..n] + "=" + value;
    assert "t=" == "t" + "=";
    forall m: Seconds
      ensures value != Decimal(m)
    {
      UnixCodec(value, m);
    }
  }

  lemma BadPartRefused(h: Header, part: string, value: string)
    requires h.unix.None? && TrimSpace(part) == "t=" + value && value != ""
    requires forall n: Seconds :: value != Decimal(n)
    ensures ParsePart(h, part) == Err(InvalidTimestamp)
  {
    hide ParsePart, ParseUnix, TrimSpace, Decimal;
    assert "t=" + value == "t" + "=" + value;
    PartOfField(h, part, "t", value);
    if ParseUnix(value).Some? {
      UnixCodec(value, ParseUnix(value).value);
    }
  }

  lemma {:induction false} FindBadStamp(h: Header, parts: seq<string>)
    returns (k: nat, items: seq<Item>, value: string)
    requires ParseParts(h, parts) == Err(InvalidTimestamp)
    ensures k < |parts| && ListParts(parts[..k], items) && AppliedAll(h, items).Some?
    ensures AppliedAll(h, items).value.unix.None?
    ensures TrimSpace(parts[k]) == "t=" + value && value != "" && forall n: Seconds :: value != Decimal(n)
    decreases |parts|
  {
    hide ParsePart, Applied, ItemText, Padded, TrimSpace, Decimal;
    if ParsePart(h, parts[0]).Err? {
      value := BadPart(h, parts[0]);
      k, items := 0, [];
    } else {
      var item := AcceptedIsItem(h, parts[0]);
      var rest;
      k, rest, value := FindBadStamp(ParsePart(h, parts[0]).value, parts[1..]);
      items := [item] + rest;
      k := k + 1;
      assert parts[..k] == [parts[0]] + parts[1..][..k - 1];
      assert items[1..] == rest;
    }
  }

  lemma {:induction false} BadStampRefused(h: Header, parts: seq<string>, k: nat, items: seq<Item>, value: string)
    requires k < |parts| && ListParts(parts[..k], items) && AppliedAll(h, items).Some?
    requires AppliedAll(h, items).value.unix.None?
    requires TrimSpace(parts[k]) == "t=" + value && value != "" && forall n: Seconds :: value != Decimal(n)
    ensures ParseParts(h, parts) == Err(InvalidTimestamp)
    decreases |parts|
  {
    hide ParsePart, Applied, ItemText, Padded, TrimSpace, Decimal;
    if k == 0 {
      BadPartRefused(h, parts[0], value);
    } else {
      assert parts[..k][0] == parts[0] && parts[..k][1..] == parts[1..][..k - 1];
      ItemAccepted(h, parts[0], items[0]);
      BadStampRefused(Applied(h, items[0]).value, parts[1..], k - 1, items[1..], value);
    }
  }

  /** The timestamp, and not the signature, is reported exactly when the first part that is wrong is a
      first timestamp whose text is no canonical int64. */
  lemma TimestampReported(header: string)
    ensures ParsedHeader(header) == Err(InvalidTimestamp) <==>
            Bounded(header) && HasBadStamp(Split(header, ','))
  {
    hide ByteLength, Split, Stamps, Signatures, ParseParts, ListParts, AppliedAll, TrimSpace, Decimal;
    var parts := Split(header, ',');
    if ParsedHeader(header) == Err(InvalidTimestamp) {
      var k, items, value := FindBadStamp(NOTHING, parts);
      AppliedCounts(NOTHING, items);
      assert BadStamp(parts, k, items, value);
    }
    forall k, items, value | BadStamp(parts, k, items, value)
      ensures ParseParts(NOTHING, parts) == Err(InvalidTimestamp)
    {
      AppliedCounts(NOTHING, items);
      BadStampRefused(NOTHING, parts, k, items, value);
    }
  }

  // ---- the signed message ----

  const DOT: Byte := 46

  /** strconv.FormatInt(n, 10). */
  function FormatInt(n: int): string {
    if n < 0 then "-" + Decimal(-n) else Decimal(n)
  }

  function Encoded(s: string): (bytes: seq<Byte>)
    requires Ascii(s)
    ensures |bytes| == |s| && forall i :: 0 <= i < |s| ==> bytes[i] == s[i] as int
  {
    seq(|s|, i requires 0 <= i < |s| => s[i] as int)
  }

  /** What sum feeds to the HMAC: the timestamp in decimal, a period and the body. */
  function Framed(unix: int, body: seq<Byte>): seq<Byte> {
    Encoded(FormatInt(unix)) + [DOT] + body
  }

  lemma FormatIntHasNoDot(n: int)
    ensures Ascii(FormatInt(n)) && Free(FormatInt(n), '.')
    ensures |FormatInt(n)| > 0
  {
  }

  lemma {:induction false} FormatIntInjective(m: int, n: int)
    requires FormatInt(m) == FormatInt(n)
    ensures m == n
  {
    ValueOfDecimal(if m < 0 then -m else m);
    ValueOfDecimal(if n < 0 then -n else n);
    if m < 0 {
      assert FormatInt(m)[1..] == Decimal(-m);
    }
    if n < 0 {
      assert FormatInt(n)[1..] == Decimal(-n);
    }
  }

  /** Different pairs of timestamp and body are different messages. */
  lemma FramingInjective(m: int, body1: seq<Byte>, n: int, body2: seq<Byte>)
    requires Framed(m, body1) == Framed(n, body2)
    ensures m == n && body1 == body2
  {
    hide FormatInt;
    FormatIntHasNoDot(m);
    FormatIntHasNoDot(n);
    var s, t := FormatInt(m), FormatInt(n);
    var f, g := Framed(m, body1), Framed(n, body2);
    assert f[|s|] == DOT && g[|t|] == DOT;
    assert forall i :: 0 <= i < |s| ==> f[i] == s[i] as int && f[i] != DOT;
    assert forall i :: 0 <= i < |t| ==> g[i] == t[i] as int && g[i] != DOT;
    assert |s| == |t|;
    assert s == t by {
      assert forall i :: 0 <= i < |s| ==> s[i] as int == t[i] as int;
    }
    FormatIntInjective(m, n);
    assert body1 == f[|s| + 1..] && body2 == g[|t| + 1..];
  }

  /** The message that is verified holds the header's own timestamp text. */
  lemma MacTextIsHeaderText(unix: Seconds, part: string)
    requires Padded(part, ItemText(Stamp(unix)))
    ensures TrimSpace(part) == "t=" + FormatInt(Unix(FromUnix(unix)))
  {
    TrimmedItem(part, Stamp(unix));
    UnixRoundTrip(unix);
  }

  function Sum(mac: Mac, secret: seq<Byte>, unix: int, body: seq<Byte>): Digest {
    mac(secret, Framed(unix, body))
  }

  // ---- signing and verifying ----

  predicate ValidSecret(secret: seq<Byte>) {
    MIN_SECRET_BYTES <= |secret| <= MAX_SECRET_BYTES
  }

  datatype Config = Config(secrets: seq<seq<Byte>>, maxAge: int, maxBodyBytes: int)

  datatype Verifier = Verifier(secrets: seq<seq<Byte>>, maxAge: int, maxBodyBytes: int)

  predicate ValidVerifier(v: Verifier) {
    && 1 <= |v.secrets| <= MAX_SECRETS
    && (forall secret | secret in v.secrets :: ValidSecret(secret))
    && 1 <= v.maxAge <= MAX_AGE
    && 1 <= v.maxBodyBytes <= MAX_BODY_BYTES
  }

  /** A verifier is made exactly when its settings, zeros replaced by the defaults, are valid; the first
      invalid setting is reported. */
  method NewVerifier(config: Config) returns (r: Result<Verifier>)
    ensures var v := Verifier(config.secrets, OrDefault(config.maxAge, DEFAULT_MAX_AGE),
                              OrDefault(config.maxBodyBytes, DEFAULT_MAX_BODY_BYTES));
            && (r.Ok? <==> ValidVerifier(v))
            && (r.Ok? ==> r.value == v)
            && (r == Err(InvalidSecret) <==>
                |v.secrets| == 0 || |v.secrets| > MAX_SECRETS
                || exists secret | secret in v.secrets :: !ValidSecret(secret))
            && (r == Err(InvalidTimestamp) || r == Err(BodyTooLarge) ==>
                forall secret | secret in v.secrets :: ValidSecret(secret))
            && (r == Err(BodyTooLarge) ==> 1 <= v.maxAge <= MAX_AGE)
            && (r.Err? ==> r.error in {InvalidSecret, InvalidTimestamp, BodyTooLarge})
  {
    if |config.secrets| == 0 || |config.secrets| > MAX_SECRETS {
      return Err(InvalidSecret);
    }
    var secrets: seq<seq<Byte>> := [];
    for i := 0 to |config.secrets|
      invariant secrets == config.secrets[..i]
      invariant forall secret | secret in secrets :: ValidSecret(secret)
    {
      if |config.secrets[i]| < MIN_SECRET_BYTES || |config.secrets[i]| > MAX_SECRET_BYTES {
        assert config.secrets[i] in config.secrets;
        return Err(InvalidSecret);
      }
      secrets := secrets + [config.secrets[i]];
    }
    var maxAge := OrDefault(config.maxAge, DEFAULT_MAX_AGE);
    if maxAge < 0 || maxAge > MAX_AGE {
      return Err(InvalidTimestamp);
    }
    var maxBodyBytes := OrDefault(config.maxBodyBytes, DEFAULT_MAX_BODY_BYTES);
    if maxBodyBytes < 1 || maxBodyBytes > MAX_BODY_BYTES {
      return Err(BodyTooLarge);
    }
    return Ok(Verifier(secrets, maxAge, maxBodyBytes));
  }

  function UnixTimestamp(timestamp: Time): Result<Seconds> {
    if IsZero(timestamp) || Unix(timestamp) < 0 then Err(InvalidTimestamp) else Ok(Unix(timestamp))
  }

  function Sign(mac: Mac, secret: seq<Byte>, timestamp: Time, body: seq<Byte>): Result<string> {
    if !ValidSecret(secret) then Err(InvalidSecret)
    else if |body| > MAX_BODY_BYTES then Err(BodyTooLarge)
    else if UnixTimestamp(timestamp).Err? then Err(UnixTimestamp(timestamp).error)
    else
      var unix := UnixTimestamp(timestamp).value;
      Ok("t=" + FormatInt(unix) + ",v1=" + Hex(Sum(mac, secret, unix, body)))
  }

  /** Sign refuses secrets of fewer than 32 or more than 1024 bytes, then bodies of more than 8 MiB, then
      timestamps that are zero or before 1970, and nothing else. */
  lemma SignsExactly(mac: Mac, secret: seq<Byte>, timestamp: Time, body: seq<Byte>)
    ensures var r := Sign(mac, secret, timestamp, body);
            && (r == Err(InvalidSecret) <==> !(32 <= |secret| <= 1024))
            && (r == Err(BodyTooLarge) <==> 32 <= |secret| <= 1024 && |body| > 8 * 1024 * 1024)
            && (r.Ok? <==> 32 <= |secret| <= 1024 && |body| <= 8 * 1024 * 1024
                           && !IsZero(timestamp) && Unix(timestamp) >= 0)
            && (r.Err? ==> r.error in {InvalidSecret, BodyTooLarge, InvalidTimestamp})
  {
    hide Unix, Sum, Hex;
  }

  /** Some configured secret's MAC equals some listed signature. */
  ghost predicate Matches(mac: Mac, secrets: seq<seq<Byte>>, unix: int, body: seq<Byte>, signatures: seq<Digest>) {
    exists secret | secret in secrets :: Sum(mac, secret, unix, body) in signatures
  }

  ghost function Verified(mac: Mac, v: Verifier, now: Time, header: string, body: seq<Byte>): Result<Time> {
    if |body| > v.maxBodyBytes then Err(BodyTooLarge)
    else
      match ParsedHeader(header)
      case Err(e) => Err(e)
      case Ok((unix, signatures)) =>
        if IsZero(now) then Err(InvalidTimestamp)
        else if !Fresh(now, FromUnix(unix), v.maxAge) then Err(StaleTimestamp)
        else if !Matches(mac, v.secrets, unix, body, signatures) then Err(InvalidSignature)
        else Ok(FromUnix(unix))
  }

  method VerifyAt(mac: Mac, v: Verifier, now: Time, header: string, body: seq<Byte>) returns (r: Result<Time>)
    ensures r == Verified(mac, v, now, header, body)
  {
    hide ParsedHeader, Sum;
    if |body| > v.maxBodyBytes {
      return Err(BodyTooLarge);
    }
    var parsed := ParseHeader(header);
    if parsed.Err? {
      return Err(parsed.error);
    }
    var timestamp, signatures := FromUnix(parsed.value.0), parsed.value.1;
    if IsZero(now) {
      return Err(InvalidTimestamp);
    }
    var age := Sub(now, timestamp);
    if age > v.maxAge || age < -v.maxAge {
      return Err(StaleTimestamp);
    }
    UnixRoundTrip(parsed.value.0);
    var valid := false;
    for i := 0 to |v.secrets|
      invariant valid <==> Matches(mac, v.secrets[..i], Unix(timestamp), body, signatures)
    {
      var expected := Sum(mac, v.secrets[i], Unix(timestamp), body);
      for j := 0 to |signatures|
        invariant valid <==>
                    Matches(mac, v.secrets[..i], Unix(timestamp), body, signatures) || expected in signatures[..j]
      {
        if expected == signatures[j] {
          valid := true;
        }
      }
      assert v.secrets[..i + 1] == v.secrets[..i] + [v.secrets[i]];
    }
    assert v.secrets[..|v.secrets|] == v.secrets;
    if !valid {
      return Err(InvalidSignature);
    }
    return Ok(timestamp);
  }

  /** Item i of the header is its timestamp, and `text` is the timestamp's text. */
  ghost predicate StampText(header: string, items: seq<Item>, i: nat, text: string) {
    && i < |items| == |Split(header, ',')| && items[i].Stamp?
    && TrimSpace(Split(header, ',')[i]) == "t=" + text
    && Ascii(text)
  }

  /** Some configured secret's MAC of the timestamp's own text, a period and the body is listed. */
  ghost predicate Authentic(mac: Mac, secrets: seq<seq<Byte>>, text: string, body: seq<Byte>, signatures: seq<Digest>)
    requires Ascii(text)
  {
    exists secret | secret in secrets :: mac(secret, Encoded(text) + [46] + body) in signatures
  }

  lemma {:induction false} StampIndex(items: seq<Item>) returns (i: nat)
    requires |Stamps(items)| == 1
    ensures i < |items| && items[i].Stamp? && items[i].unix == Stamps(items)[0]
  {
    CountsFirst(items);
    if items[0].Stamp? {
      i := 0;
    } else {
      i := StampIndex(items[1..]);
      i := i + 1;
    }
  }

  lemma {:induction false} OneStamp(items: seq<Item>, i: nat)
    requires |Stamps(items)| == 1 && i < |items| && items[i].Stamp?
    ensures items[i].unix == Stamps(items)[0]
  {
    CountsFirst(items);
    if i > 0 {
      if items[0].Stamp? {
        StampCounts(items[1..], i - 1);
      }
      OneStamp(items[1..], i - 1);
    }
  }

  lemma {:induction false} StampCounts(items: seq<Item>, i: nat)
    requires i < |items| && items[i].Stamp?
    ensures Stamps(items) != []
  {
    CountsFirst(items);
    if i > 0 {
      StampCounts(items[1..], i - 1);
    }
  }

  /** The timestamp's text is the decimal form that goes into the message. */
  lemma StampTextIs(header: string, items: seq<Item>, i: nat, text: string)
    requires Lists(header, items) && Complete(items) && StampText(header, items, i, text)
    ensures text == FormatInt(Stamps(items)[0])
  {
    hide Split, TrimSpace, Stamps, Signatures, FormatInt;
    OneStamp(items, i);
    TrimmedItem(Split(header, ',')[i], items[i]);
    FormatIsDecimal(items[i].unix);
    assert ("t=" + text)[2..] == text && ItemText(items[i])[2..] == Decimal(items[i].unix);
  }

  lemma FormatIsDecimal(n: Seconds)
    ensures FormatInt(n) == Decimal(n)
  {
  }

  lemma HasStampText(header: string, items: seq<Item>) returns (i: nat, text: string)
    requires Lists(header, items) && Complete(items)
    ensures StampText(header, items, i, text) && text == FormatInt(Stamps(items)[0])
  {
    hide Split, TrimSpace, Stamps, Signatures, FormatInt;
    i := StampIndex(items);
    text := FormatInt(items[i].unix);
    FormatIntHasNoDot(items[i].unix);
    FormatIsDecimal(items[i].unix);
    TrimmedItem(Split(header, ',')[i], items[i]);
  }

  /** The message as a verifier computes it, and as the header's own text spells it. */
  lemma MatchesIsAuthentic(mac: Mac, secrets: seq<seq<Byte>>, unix: int, body: seq<Byte>, signatures: seq<Digest>)
    ensures Ascii(FormatInt(unix))
    ensures Matches(mac, secrets, unix, body, signatures) <==>
            Authentic(mac, secrets, FormatInt(unix), body, signatures)
  {
    FormatIntHasNoDot(unix);
  }

  /** Acceptance, for any header: the bounds, the grammar, freshness, and one configured secret whose
      MAC of the header's own timestamp text, a period and the body is listed. */
  lemma AcceptedExactly(mac: Mac, v: Verifier, now: Time, header: string, body: seq<Byte>, t: Time)
    ensures Verified(mac, v, now, header, body) == Ok(t) <==>
            |body| <= v.maxBodyBytes && Bounded(header) && !IsZero(now) && Fresh(now, t, v.maxAge)
            && exists items, i, text ::
                 Lists(header, items) && Complete(items) && t == FromUnix(Stamps(items)[0])
                 && StampText(header, items, i, text)
                 && Authentic(mac, v.secrets, text, body, Signatures(items))
  {
    hide ByteLength, Stamps, Signatures, Lists, Fresh, FromUnix, Matches, Authentic, StampText, ParsedHeader,
         Bounded;
    if Verified(mac, v, now, header, body) == Ok(t) {
      var unix, signatures := ParsedHeader(header).value.0, ParsedHeader(header).value.1;
      HeaderGrammar(header, unix, signatures);
      var items :| Lists(header, items) && Complete(items)
                   && Stamps(items) == [unix] && Signatures(items) == signatures;
      var i, text := HasStampText(header, items);
      MatchesIsAuthentic(mac, v.secrets, unix, body, signatures);
      assert Authentic(mac, v.secrets, text, body, Signatures(items));
    }
    forall items, i, text | Bounded(header) && Lists(header, items) && Complete(items)
                            && StampText(header, items, i, text)
      ensures ParsedHeader(header) == Ok((Stamps(items)[0], Signatures(items)))
      ensures text == FormatInt(Stamps(items)[0])
      ensures Authentic(mac, v.secrets, text, body, Signatures(items))
              == Matches(mac, v.secrets, Stamps(items)[0], body, Signatures(items))
    {
      ListOutcome(header, items);
      StampTextIs(header, items, i, text);
      MatchesIsAuthentic(mac, v.secrets, Stamps(items)[0], body, Signatures(items));
    }
  }

  // ---- sign, then verify ----

  function Pow10(k: nat): nat {
    if k == 0 then 1 else 10 * Pow10(k - 1)
  }

  lemma {:induction false} DecimalLength(n: nat, k: nat)
    requires n < Pow10(k + 1)
    ensures |Decimal(n)| <= k + 1
  {
    if n >= 10 {
      DecimalLength(n / 10, k - 1);
    }
  }

  lemma DecimalLengthOfSeconds(n: Seconds)
    ensures |Decimal(n)| <= 20
  {
    assert Pow10(5) == 100_000 && Pow10(10) == 100_000 * Pow10(5);
    assert Pow10(15) == 100_000 * Pow10(10) && Pow10(20) == 100_000 * Pow10(15);
    DecimalLength(n, 19);
  }

  lemma {:induction false} HexDigits(bytes: seq<Byte>)
    ensures AllHex(Hex(bytes)) && Ascii(Hex(bytes)) && Free(Hex(bytes), ',')
  {
    if bytes != [] {
      HexDigits(bytes[1..]);
    }
  }

  lemma SignedText(unix: Seconds, hex: HexText)
    requires Ascii(hex) && Free(hex, ',')
    ensures var header := "t=" + FormatInt(unix) + ",v1=" + hex;
            Bounded(header) && Split(header, ',') == ["t=" + Decimal(unix), "v1=" + hex]
  {
    hide Decimal, AllHex;
    var stamp, signature := "t=" + Decimal(unix), "v1=" + hex;
    var header := "t=" + FormatInt(unix) + ",v1=" + hex;
    assert header == stamp + [','] + signature;
    FormatIntHasNoDot(unix);
    DecimalLengthOfSeconds(unix);
    AsciiBytes(header);
    JoinCons(stamp, [signature], ',');
    JoinCons(signature, [signature], ',');
    JoinThenSplit([stamp, signature], ',');
  }

  /** Sign prints a header that parses as the truncated timestamp and the one signature. */
  lemma SignedParses(mac: Mac, secret: seq<Byte>, timestamp: Time, body: seq<Byte>)
    requires Sign(mac, secret, timestamp, body).Ok?
    ensures var unix := Unix(timestamp);
            && 0 <= unix
            && ParsedHeader(Sign(mac, secret, timestamp, body).value) == Ok((unix, [Sum(mac, secret, unix, body)]))
  {
    hide Sum, ParsedHeader, Bounded, Decimal, FormatInt, Hex, Split, AllHex, ItemText;
    var unix: Seconds, digest := Unix(timestamp), Sum(mac, secret, Unix(timestamp), body);
    HexDigits(digest);
    UnhexOfHex(digest);
    SignedText(unix, Hex(digest));
    var items := [Stamp(unix), Signature(Hex(digest))];
    ListedPair(Sign(mac, secret, timestamp, body).value, unix, Hex(digest));
  }

  lemma PaddedByNothing(text: string)
    ensures Padded(text, text)
  {
    assert AllSpace("") && text == "" + text + "";
  }

  lemma PairCounts(unix: Seconds, hex: HexText)
    ensures var items := [Stamp(unix), Signature(hex)]; Stamps(items) == [unix] && Signatures(items) == [DigestOf(hex)]
  {
    hide DigestOf, Stamps, Signatures;
    var items, rest := [Stamp(unix), Signature(hex)], [Signature(hex)];
    assert items[1..] == rest && rest[1..] == [];
    CountsFirst(items);
    CountsFirst(rest);
    CountsNothing();
    assert [unix] + [] == [unix] && [DigestOf(hex)] + [] == [DigestOf(hex)];
  }

  lemma ListedPair(header: string, unix: Seconds, hex: HexText)
    requires Bounded(header) && Split(header, ',') == ["t=" + Decimal(unix), "v1=" + hex]
    ensures ParsedHeader(header) == Ok((unix, [DigestOf(hex)]))
  {
    hide ParsedHeader, Bounded, Decimal, Split, AllHex, DigestOf;
    var items := [Stamp(unix), Signature(hex)];
    PaddedByNothing(ItemText(items[0]));
    PaddedByNothing(ItemText(items[1]));
    PairCounts(unix, hex);
    assert Lists(header, items);
    ListOutcome(header, items);
  }

  /** What a verifier says about a signed header that arrives with any body: it accepts exactly when the
      timestamp is fresh and one of its secrets gives the received body the signed body's MAC. */
  lemma SignedOutcome(mac: Mac, v: Verifier, secret: seq<Byte>, timestamp: Time, signed: seq<Byte>,
                      now: Time, received: seq<Byte>)
    requires Sign(mac, secret, timestamp, signed).Ok?
    ensures var unix, truncated := Unix(timestamp), RawTime(timestamp.sec, 0);
            Verified(mac, v, now, Sign(mac, secret, timestamp, signed).value, received)
            == if |received| > v.maxBodyBytes then Err(BodyTooLarge)
               else if IsZero(now) then Err(InvalidTimestamp)
               else if !Fresh(now, truncated, v.maxAge) then Err(StaleTimestamp)
               else if exists held | held in v.secrets ::
                         Sum(mac, held, unix, received) == Sum(mac, secret, unix, signed)
               then Ok(truncated)
               else Err(InvalidSignature)
  {
    hide ParsedHeader, Sign, Fresh, Sum, FromUnix, Unix;
    SignedParses(mac, secret, timestamp, signed);
    Truncated(timestamp);
  }

  /** Signing and verifying agree: with a secret that the verifier holds, a timestamp that is not before
      1970 and a body within its limit, the header is accepted exactly while now is within the maximal
      age of the timestamp in whole seconds. */
  lemma SignThenVerify(mac: Mac, v: Verifier, secret: seq<Byte>, timestamp: Time, body: seq<Byte>, now: Time)
    requires ValidVerifier(v) && secret in v.secrets
    requires !IsZero(timestamp) && Unix(timestamp) >= 0 && !IsZero(now)
    requires |body| <= v.maxBodyBytes
    ensures var truncated := RawTime(timestamp.sec, 0);
            && Sign(mac, secret, timestamp, body).Ok?
            && Verified(mac, v, now, Sign(mac, secret, timestamp, body).value, body)
               == if Near(now, truncated, v.maxAge) then Ok(truncated) else Err(StaleTimestamp)
  {
    hide Fresh, Sum, Unix, Verified;
    FreshIsDistance(now, RawTime(timestamp.sec, 0), v.maxAge);
    SignedOutcome(mac, v, secret, timestamp, body, now, body);
  }

  // ---- a signature is good for one message ----

  /** Among these messages and secrets, equal MACs come from equal messages. (No function onto 32 bytes can
      promise that for all messages.) */
  ghost predicate CollisionFree(mac: Mac, secrets: seq<seq<Byte>>, messages: set<seq<Byte>>) {
    forall s, t, m, n | s in secrets && t in secrets && m in messages && n in messages ::
      mac(s, m) == mac(t, n) ==> m == n
  }

  /** Without a collision between the two messages, the signature for one pair of timestamp and body
      matches no other pair. */
  lemma SignatureBinds(mac: Mac, secrets: seq<seq<Byte>>, s1: seq<Byte>, t1: int, body1: seq<Byte>,
                       s2: seq<Byte>, t2: int, body2: seq<Byte>)
    requires s1 in secrets && s2 in secrets
    requires CollisionFree(mac, secrets,
                           {Encoded(FormatInt(t1)) + [46] + body1, Encoded(FormatInt(t2)) + [46] + body2})
    ensures Sum(mac, s1, t1, body1) == Sum(mac, s2, t2, body2) ==> t1 == t2 && body1 == body2
  {
    hide FormatInt, Encoded;
    if Sum(mac, s1, t1, body1) == Sum(mac, s2, t2, body2) {
      FramingInjective(t1, body1, t2, body2);
    }
  }

  lemma SumIs(mac: Mac, secret: seq<Byte>, unix: int, body: seq<Byte>)
    ensures Ascii(FormatInt(unix))
    ensures Sum(mac, secret, unix, body) == mac(secret, Encoded(FormatInt(unix)) + [46] + body)
  {
    FormatIntHasNoDot(unix);
  }

  /** A header that lists the signature Sign made is refused with any other timestamp or body. */
  lemma ReplayIsRefused(mac: Mac, v: Verifier, secret: seq<Byte>, timestamp: Time, signed: seq<Byte>,
                        now: Time, header: string, received: seq<Byte>)
    requires secret in v.secrets && Sign(mac, secret, timestamp, signed).Ok?
    requires ParsedHeader(header).Ok?
    requires ParsedHeader(header).value.1 == [mac(secret, Encoded(FormatInt(Unix(timestamp))) + [46] + signed)]
    requires CollisionFree(mac, v.secrets,
                           {Encoded(FormatInt(Unix(timestamp))) + [46] + signed,
                            Encoded(FormatInt(ParsedHeader(header).value.0)) + [46] + received})
    ensures Verified(mac, v, now, header, received).Ok? ==>
              Verified(mac, v, now, header, received) == Ok(RawTime(timestamp.sec, 0)) && received == signed
  {
    hide ParsedHeader, Sign, Sum, FormatInt, Encoded, Fresh, CollisionFree, FromUnix, Unix;
    SumIs(mac, secret, Unix(timestamp), signed);
    Truncated(timestamp);
    if Verified(mac, v, now, header, received).Ok? {
      var unix := ParsedHeader(header).value.0;
      var held :| held in v.secrets && Sum(mac, held, unix, received) == Sum(mac, secret, Unix(timestamp), signed);
      SignatureBinds(mac, v.secrets, secret, Unix(timestamp), signed, held, unix, received);
    }
  }
}
