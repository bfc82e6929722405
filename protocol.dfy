// The custom TCP protocol's request and response: a header of a six-token
// first line, `key: value` lines and an empty line, followed by the body.
// The header classes parse all-or-nothing and render with the extra headers
// in key order; the message classes cache their rendering and check the
// body against the header's checksum and length.
module Protocol {
  import opened Wrappers
  import opened Decimal
  import opened HeaderText
  import opened Auxiliary

  type Word16 = x: int | 0 <= x < 0x1_0000

  const Limit8: nat := 0x100
  const Limit16: nat := 0x1_0000
  const Limit32: nat := 0x1_0000_0000

  const MaxMethod: nat := 10
  const MaxTarget: nat := 2048
  const MaxStatusMessage: nat := 256
  /** The shortest header either parser looks at. */
  const MinHeader: nat := 10

  /** Everything `request_header` serialises; the timestamp in milliseconds since the epoch. */
  datatype RequestFields = RequestFields(
    requestMethod: string, target: string, userAgent: string,
    version: Word32, checksumType: ChecksumType, checksumValue: Word32, contentLength: nat,
    timestamp: int, headers: map<string, string>)

  /** Everything `response_header` serialises. */
  datatype ResponseFields = ResponseFields(
    version: Word32, statusCode: Word16, statusMessage: string, server: string,
    checksumType: ChecksumType, checksumValue: Word32, contentLength: nat,
    timestamp: int, headers: map<string, string>)

  /** The checksum-type token: a uint8 that must name CRC32, MD5 or SHA256; CUSTOM is refused. */
  function ParseChecksumType(t: string): (r: Option<ChecksumType>)
    ensures r.Some? <==> ParseUnsigned(t, Limit8).Some? && ParseUnsigned(t, Limit8).value <= Sha256.Code()
    ensures r.Some? ==> r.value != Custom && r.value.Code() == ParseUnsigned(t, Limit8).value
  {
    match ParseUnsigned(t, Limit8)
    case None => None
    case Some(n) => if n > Sha256.Code() then None else ChecksumOfCode(n)
  }

  /** The request line `method target version type checksum length`, into fresh fields. */
  function ParseRequestLine(ts: seq<string>): (r: Result<RequestFields>)
    ensures r.Ok? ==> |ts| == 6 && r.value.requestMethod == ts[0] && r.value.target == ts[1]
    ensures r.Ok? ==> 1 <= |r.value.requestMethod| <= MaxMethod && 1 <= |r.value.target| <= MaxTarget
    ensures r.Ok? ==> r.value.checksumType != Custom && r.value.contentLength < Limit32
    ensures r.Ok? ==> r.value.userAgent == [] && r.value.timestamp == 0 && r.value.headers == map[]
  {
    if |ts| != 6 then Fail("the request line needs six tokens")
    else if ts[0] == [] || |ts[0]| > MaxMethod || ts[1] == [] || |ts[1]| > MaxTarget then Fail("bad method or target")
    else
      var version := ParseUnsigned(ts[2], Limit32);
      var kind := ParseChecksumType(ts[3]);
      var checksum := ParseUnsigned(ts[4], Limit32);
      var length := ParseUnsigned(ts[5], Limit32);
      if version.None? || kind.None? || checksum.None? || length.None? then Fail("bad number")
      else Ok(RequestFields(ts[0], ts[1], [], version.value, kind.value, checksum.value, length.value, 0, map[]))
  }

  /** The status line `version code message type checksum length`, into fresh fields. */
  function ParseStatusLine(ts: seq<string>): (r: Result<ResponseFields>)
    ensures r.Ok? ==> |ts| == 6 && r.value.statusMessage == ts[2]
    ensures r.Ok? ==> 100 <= r.value.statusCode <= 599 && 1 <= |r.value.statusMessage| <= MaxStatusMessage
    ensures r.Ok? ==> r.value.checksumType != Custom && r.value.contentLength < Limit32
    ensures r.Ok? ==> r.value.server == [] && r.value.timestamp == 0 && r.value.headers == map[]
  {
    if |ts| != 6 then Fail("the status line needs six tokens")
    else
      var version := ParseUnsigned(ts[0], Limit32);
      var code := ParseUnsigned(ts[1], Limit16);
      if version.None? || code.None? then Fail("bad number")
      else if code.value < 100 || code.value > 599 then Fail("bad status code")
      else if ts[2] == [] || |ts[2]| > MaxStatusMessage then Fail("bad status message")
      else
        var kind := ParseChecksumType(ts[3]);
        var checksum := ParseUnsigned(ts[4], Limit32);
        var length := ParseUnsigned(ts[5], Limit32);
        if kind.None? || checksum.None? || length.None? then Fail("bad number")
        else Ok(ResponseFields(version.value, code.value, ts[2], [], kind.value, checksum.value, length.value, 0, map[]))
  }

  /** The fields every parsed header satisfies, whatever the input. */
  predicate ExtrasBounded(x: Extras, now: int)
  {
    |x.special| <= MaxSpecial && (x.timestamp == 0 || 0 <= x.timestamp <= now + OneDay) &&
    |x.headers| <= MaxOrdinary &&
    forall k :: k in x.headers ==> 1 <= |k| <= MaxKey && |x.headers[k]| <= MaxValue && k != "Timestamp"
  }

  /** Each key and value the reader stores keeps the bounds. */
  lemma StoreBounded(k: string, v: string, acc: Extras, special: string, now: int)
    requires ExtrasBounded(acc, now)
    ensures Store(k, v, acc, special, now).Ok? ==> ExtrasBounded(Store(k, v, acc, special, now).value, now)
  {
    var r := Store(k, v, acc, special, now);
    if r.Ok? && k != special && k != "Timestamp" {
      assert r.value.headers == acc.headers[k := v];
      assert |r.value.headers| <= |acc.headers| + 1;
    }
  }

  /** Each line the reader accepts keeps the bounds. */
  lemma LineStepBounded(line: string, acc: Extras, special: string, now: int)
    requires ExtrasBounded(acc, now)
    ensures LineStep(line, acc, special, now).Ok? ==> ExtrasBounded(LineStep(line, acc, special, now).value, now)
  {
    match IndexOf(line, ':')
    case None =>
    case Some(colon) =>
      if 0 < colon < |line| - 1 && colon <= MaxLine && |line| - colon - 1 <= MaxLine {
        StoreBounded(Trim(line[..colon]), Trim(line[colon + 1..]), acc, special, now);
      }
  }

  /** Whatever the header lines, what the loop collects keeps the bounds. */
  lemma HeaderLinesBounded(data: string, pos: nat, count: nat, acc: Extras, special: string, now: int)
    requires ExtrasBounded(acc, now)
    ensures HeaderLines(data, pos, count, acc, ReaderFor(special, now)).Ok? ==>
      ExtrasBounded(HeaderLines(data, pos, count, acc, ReaderFor(special, now)).value, now)
  {
    var read := ReaderFor(special, now);
    var inv := (a: Extras) => ExtrasBounded(a, now);
    forall l, a | inv(a) && read(l, a).Ok?
      ensures inv(read(l, a).value)
    {
      LineStepBounded(l, a, special, now);
    }
    HeaderLinesKeeps(data, pos, count, acc, read, inv);
  }

  /**
   * `request_header::from_string` on data, with the clock reading now: at
   * least 10 characters, a first line of six tokens, then the header lines.
   */
  function ParseRequestHeader(data: string, now: int): (r: Result<RequestFields>)
    ensures |data| < MinHeader ==> r.Fail?
    ensures FindCrlf(data, 0).None? ==> r.Fail?
    ensures r.Ok? ==> 1 <= |r.value.requestMethod| <= MaxMethod && 1 <= |r.value.target| <= MaxTarget
    ensures r.Ok? ==> r.value.checksumType != Custom && r.value.contentLength < Limit32
    ensures r.Ok? ==> ExtrasBounded(Extras(r.value.userAgent, r.value.timestamp, r.value.headers), now)
  {
    if |data| < MinHeader then Fail("too short")
    else match FindCrlf(data, 0)
      case None => Fail("no line end")
      case Some(le) =>
        match ParseRequestLine(FirstTen(Tokens(data[..le])))
        case Fail(e) => Fail(e)
        case Ok(f) =>
          HeaderLinesBounded(data, le + 2, 0, NoExtras, "User-Agent", now);
          match HeaderLines(data, le + 2, 0, NoExtras, ReaderFor("User-Agent", now))
          case Fail(e) => Fail(e)
          case Ok(x) => Ok(f.(userAgent := x.special, timestamp := x.timestamp, headers := x.headers))
  }

  /** `response_header::from_string`: the same, with a status line and `Server` for `User-Agent`. */
  function ParseResponseHeader(data: string, now: int): (r: Result<ResponseFields>)
    ensures |data| < MinHeader ==> r.Fail?
    ensures FindCrlf(data, 0).None? ==> r.Fail?
    ensures r.Ok? ==> 100 <= r.value.statusCode <= 599 && 1 <= |r.value.statusMessage| <= MaxStatusMessage
    ensures r.Ok? ==> r.value.checksumType != Custom && r.value.contentLength < Limit32
    ensures r.Ok? ==> ExtrasBounded(Extras(r.value.server, r.value.timestamp, r.value.headers), now)
  {
    if |data| < MinHeader then Fail("too short")
    else match FindCrlf(data, 0)
      case None => Fail("no line end")
      case Some(le) =>
        match ParseStatusLine(FirstTen(Tokens(data[..le])))
        case Fail(e) => Fail(e)
        case Ok(f) =>
          HeaderLinesBounded(data, le + 2, 0, NoExtras, "Server", now);
          match HeaderLines(data, le + 2, 0, NoExtras, ReaderFor("Server", now))
          case Fail(e) => Fail(e)
          case Ok(x) => Ok(f.(server := x.special, timestamp := x.timestamp, headers := x.headers))
  }

  // ------------------------------------------------------------ rendering

  function RequestTokens(f: RequestFields): (ts: seq<string>)
  {
    [f.requestMethod, f.target, NatToString(f.version), NatToString(f.checksumType.Code()),
     NatToString(f.checksumValue), NatToString(f.contentLength)]
  }

  function StatusTokens(f: ResponseFields): (ts: seq<string>)
  {
    [NatToString(f.version), NatToString(f.statusCode), f.statusMessage, NatToString(f.checksumType.Code()),
     NatToString(f.checksumValue), NatToString(f.contentLength)]
  }

  /** `request_header::to_string` without its final empty line: what `request::from_string` hands the header parser. */
  ghost function RequestHead(f: RequestFields): string
  {
    LinesText([Joined(RequestTokens(f))] + TailLines("User-Agent", f.userAgent, f.timestamp, f.headers))
  }

  /** `request_header::to_string`: the header lines, then the empty line that ends the block. */
  ghost function RenderRequest(f: RequestFields): (s: string)
    ensures |s| >= 4 && s[|s| - 4..] == "\r\n\r\n"
  {
    LinesTextEnds([Joined(RequestTokens(f))] + TailLines("User-Agent", f.userAgent, f.timestamp, f.headers));
    RequestHead(f) + "\r\n"
  }

  ghost function ResponseHead(f: ResponseFields): string
  {
    LinesText([Joined(StatusTokens(f))] + TailLines("Server", f.server, f.timestamp, f.headers))
  }

  /** `response_header::to_string`: the header lines, then the empty line that ends the block. */
  ghost function RenderResponse(f: ResponseFields): (s: string)
    ensures |s| >= 4 && s[|s| - 4..] == "\r\n\r\n"
  {
    LinesTextEnds([Joined(StatusTokens(f))] + TailLines("Server", f.server, f.timestamp, f.headers));
    ResponseHead(f) + "\r\n"
  }

  // ------------------------------------------------------------ round trip

  /**
   * A request header that reads back as written: method and target single
   * words within their limits, a checksum type other than CUSTOM, a length
   * below 2^32 and a well-formed rest of the header.
   */
  predicate RequestWellFormed(f: RequestFields, now: int)
  {
    RequestLineWellFormed(f) &&
    TailWellFormed("User-Agent", f.userAgent, f.timestamp, f.headers, now)
  }

  /** A response header that reads back as written: the status message must be a single word. */
  predicate ResponseWellFormed(f: ResponseFields, now: int)
  {
    StatusLineWellFormed(f) &&
    TailWellFormed("Server", f.server, f.timestamp, f.headers, now)
  }

  lemma NumberWord(n: nat)
    ensures Word(NatToString(n))
  {
    var s := NatToString(n);
    assert forall i :: 0 <= i < |s| ==> IsDigit(s[i]);
  }

  lemma NumberRoundTrip(n: nat, limit: nat)
    requires limit <= Limit64 && n < limit
    ensures ParseUnsigned(NatToString(n), limit) == Some(n)
  {
    ParseUnsignedOfNatToString(n, limit);
  }

  lemma ChecksumTypeRoundTrip(t: ChecksumType)
    requires t != Custom
    ensures ParseChecksumType(NatToString(t.Code())) == Some(t)
  {
    NumberRoundTrip(t.Code(), Limit8);
    ChecksumCodeRoundTrip(t);
  }

  lemma RequestLineRoundTrip(f: RequestFields)
    requires RequestLineWellFormed(f)
    ensures ParseRequestLine(RequestTokens(f)) == Ok(f.(userAgent := [], timestamp := 0, headers := map[]))
  {
    NumberRoundTrip(f.version, Limit32);
    ChecksumTypeRoundTrip(f.checksumType);
    NumberRoundTrip(f.checksumValue, Limit32);
    NumberRoundTrip(f.contentLength, Limit32);
  }

  lemma StatusLineRoundTrip(f: ResponseFields)
    requires StatusLineWellFormed(f)
    ensures ParseStatusLine(StatusTokens(f)) == Ok(f.(server := [], timestamp := 0, headers := map[]))
  {
    NumberRoundTrip(f.version, Limit32);
    NumberRoundTrip(f.statusCode, Limit16);
    ChecksumTypeRoundTrip(f.checksumType);
    NumberRoundTrip(f.checksumValue, Limit32);
    NumberRoundTrip(f.contentLength, Limit32);
  }

  /** The first line of a header is found, split and handed on as the parsers expect. */
  lemma FirstLineWords(ts: seq<string>, tail: seq<string>)
    requires 6 <= |ts| <= 10 && forall i :: 0 <= i < |ts| ==> Word(ts[i])
    ensures |LinesText([Joined(ts)] + tail)| >= MinHeader
    ensures FindCrlf(LinesText([Joined(ts)] + tail), 0) == Some(|Joined(ts)|)
    ensures LinesText([Joined(ts)] + tail)[..|Joined(ts)|] == Joined(ts)
    ensures LinesText([Joined(ts)] + tail)[|Joined(ts)| + 2..] == LinesText(tail)
    ensures FirstTen(Tokens(Joined(ts))) == ts
  {
    var first := Joined(ts);
    var data := LinesText([first] + tail);
    assert ([first] + tail)[0] == first && ([first] + tail)[1..] == tail;
    assert data == first + "\r\n" + LinesText(tail);
    JoinedLacks(ts, '\r');
    JoinedLacks(ts, '\n');
    assert data[0..|first| + 2] == first + "\r\n";
    FindCrlfAfter(data, 0, first);
    assert data[..|first|] == first;
    assert data[|first| + 2..] == LinesText(tail);
    TokensOfJoined(ts);
    JoinedLength(ts);
  }

  lemma FirstLine(ts: seq<string>, tail: seq<string>)
    requires |ts| == 6 && Word(ts[0]) && Word(ts[1]) && Word(ts[2]) && Word(ts[3]) && Word(ts[4]) && Word(ts[5])
    ensures |LinesText([Joined(ts)] + tail)| >= MinHeader
    ensures FindCrlf(LinesText([Joined(ts)] + tail), 0) == Some(|Joined(ts)|)
    ensures LinesText([Joined(ts)] + tail)[..|Joined(ts)|] == Joined(ts)
    ensures LinesText([Joined(ts)] + tail)[|Joined(ts)| + 2..] == LinesText(tail)
    ensures FirstTen(Tokens(Joined(ts))) == ts
  {
    forall i | 0 <= i < |ts|
      ensures Word(ts[i])
    {
      if i == 0 {} else if i == 1 {} else if i == 2 {} else if i == 3 {} else if i == 4 {} else {}
    }
    FirstLineWords(ts, tail);
  }

  /** How a request header parse that gets through all three stages ends. */
  lemma RequestHeaderOf(data: string, now: int, le: nat, f: RequestFields, x: Extras)
    requires |data| >= MinHeader && FindCrlf(data, 0) == Some(le)
    requires ParseRequestLine(FirstTen(Tokens(data[..le]))) == Ok(f)
    requires HeaderLines(data, le + 2, 0, NoExtras, ReaderFor("User-Agent", now)) == Ok(x)
    ensures ParseRequestHeader(data, now) == Ok(f.(userAgent := x.special, timestamp := x.timestamp, headers := x.headers))
  {
  }

  /** How a response header parse that gets through all three stages ends. */
  lemma ResponseHeaderOf(data: string, now: int, le: nat, f: ResponseFields, x: Extras)
    requires |data| >= MinHeader && FindCrlf(data, 0) == Some(le)
    requires ParseStatusLine(FirstTen(Tokens(data[..le]))) == Ok(f)
    requires HeaderLines(data, le + 2, 0, NoExtras, ReaderFor("Server", now)) == Ok(x)
    ensures ParseResponseHeader(data, now) == Ok(f.(server := x.special, timestamp := x.timestamp, headers := x.headers))
  {
  }

  /** The lines after the first read back as the extras they were rendered from. */
  lemma TailParse(data: string, pos: nat, special: string, value: string, timestamp: int, h: map<string, string>, now: int)
    requires SpecialKey(special) && TailWellFormed(special, value, timestamp, h, now)
    requires pos <= |data| && data[pos..] == LinesText(TailLines(special, value, timestamp, h))
    ensures HeaderLines(data, pos, 0, NoExtras, ReaderFor(special, now)) == Ok(Extras(value, timestamp, h))
  {
    var tail := TailLines(special, value, timestamp, h);
    TailLinesGood(special, value, timestamp, h, now);
    HeaderLinesOfText(data, pos, 0, NoExtras, ReaderFor(special, now), tail);
    TailRoundTrip(special, value, timestamp, h, now);
  }

  predicate RequestLineWellFormed(f: RequestFields)
  {
    Word(f.requestMethod) && |f.requestMethod| <= MaxMethod && Word(f.target) && |f.target| <= MaxTarget &&
    f.checksumType != Custom && f.contentLength < Limit32
  }

  predicate StatusLineWellFormed(f: ResponseFields)
  {
    100 <= f.statusCode <= 599 && Word(f.statusMessage) && |f.statusMessage| <= MaxStatusMessage &&
    f.checksumType != Custom && f.contentLength < Limit32
  }

  /** The request line of a rendered header is found and read back. */
  lemma RequestFirstLine(f: RequestFields, tail: seq<string>)
    requires RequestLineWellFormed(f)
    ensures |LinesText([Joined(RequestTokens(f))] + tail)| >= MinHeader
    ensures FindCrlf(LinesText([Joined(RequestTokens(f))] + tail), 0) == Some(|Joined(RequestTokens(f))|)
    ensures ParseRequestLine(FirstTen(Tokens(LinesText([Joined(RequestTokens(f))] + tail)[..|Joined(RequestTokens(f))|])))
      == Ok(f.(userAgent := [], timestamp := 0, headers := map[]))
    ensures LinesText([Joined(RequestTokens(f))] + tail)[|Joined(RequestTokens(f))| + 2..] == LinesText(tail)
  {
    NumberWord(f.version);
    NumberWord(f.checksumType.Code());
    NumberWord(f.checksumValue);
    NumberWord(f.contentLength);
    FirstLine(RequestTokens(f), tail);
    RequestLineRoundTrip(f);
  }

  /** The status line of a rendered header is found and read back. */
  lemma StatusFirstLine(f: ResponseFields, tail: seq<string>)
    requires StatusLineWellFormed(f)
    ensures |LinesText([Joined(StatusTokens(f))] + tail)| >= MinHeader
    ensures FindCrlf(LinesText([Joined(StatusTokens(f))] + tail), 0) == Some(|Joined(StatusTokens(f))|)
    ensures ParseStatusLine(FirstTen(Tokens(LinesText([Joined(StatusTokens(f))] + tail)[..|Joined(StatusTokens(f))|])))
      == Ok(f.(server := [], timestamp := 0, headers := map[]))
    ensures LinesText([Joined(StatusTokens(f))] + tail)[|Joined(StatusTokens(f))| + 2..] == LinesText(tail)
  {
    NumberWord(f.version);
    NumberWord(f.statusCode);
    NumberWord(f.checksumType.Code());
    NumberWord(f.checksumValue);
    NumberWord(f.contentLength);
    FirstLine(StatusTokens(f), tail);
    StatusLineRoundTrip(f);
  }

  /** A well-formed request header, rendered and read back, gives the same fields. */
  lemma RequestHeaderRoundTrip(f: RequestFields, now: int)
    requires RequestWellFormed(f, now)
    ensures ParseRequestHeader(RequestHead(f), now) == Ok(f)
  {
    var tail := TailLines("User-Agent", f.userAgent, f.timestamp, f.headers);
    var data := RequestHead(f);
    var le := |Joined(RequestTokens(f))|;
    RequestFirstLine(f, tail);
    TailParse(data, le + 2, "User-Agent", f.userAgent, f.timestamp, f.headers, now);
    RequestHeaderOf(data, now, le, f.(userAgent := [], timestamp := 0, headers := map[]), Extras(f.userAgent, f.timestamp, f.headers));
  }

  /** A well-formed response header, rendered and read back, gives the same fields. */
  lemma ResponseHeaderRoundTrip(f: ResponseFields, now: int)
    requires ResponseWellFormed(f, now)
    ensures ParseResponseHeader(ResponseHead(f), now) == Ok(f)
  {
    var tail := TailLines("Server", f.server, f.timestamp, f.headers);
    var data := ResponseHead(f);
    var le := |Joined(StatusTokens(f))|;
    StatusFirstLine(f, tail);
    TailParse(data, le + 2, "Server", f.server, f.timestamp, f.headers, now);
    ResponseHeaderOf(data, now, le, f.(server := [], timestamp := 0, headers := map[]), Extras(f.server, f.timestamp, f.headers));
  }

  // ------------------------------------------------------------ what does not read back

  /** A request whose first line fails is refused, whatever follows. */
  lemma RequestRefusedByFirstLine(data: string, now: int, le: nat)
    requires FindCrlf(data, 0) == Some(le) && ParseRequestLine(FirstTen(Tokens(data[..le]))).Fail?
    ensures ParseRequestHeader(data, now).Fail?
  {
  }

  lemma ResponseRefusedByFirstLine(data: string, now: int, le: nat)
    requires FindCrlf(data, 0) == Some(le) && ParseStatusLine(FirstTen(Tokens(data[..le]))).Fail?
    ensures ParseResponseHeader(data, now).Fail?
  {
  }

  lemma RequestTokensRead(f: RequestFields, tail: seq<string>)
    requires Word(f.requestMethod) && Word(f.target)
    ensures FindCrlf(LinesText([Joined(RequestTokens(f))] + tail), 0) == Some(|Joined(RequestTokens(f))|)
    ensures FirstTen(Tokens(LinesText([Joined(RequestTokens(f))] + tail)[..|Joined(RequestTokens(f))|])) == RequestTokens(f)
  {
    NumberWord(f.version);
    NumberWord(f.checksumType.Code());
    NumberWord(f.checksumValue);
    NumberWord(f.contentLength);
    FirstLine(RequestTokens(f), tail);
  }

  /**
   * `to_string` writes the CUSTOM checksum type as 3, which `from_string`
   * refuses: a header with that type does not read back.
   */
  lemma CustomChecksumNotReadBack(f: RequestFields, now: int)
    requires Word(f.requestMethod) && Word(f.target) && f.checksumType == Custom
    ensures ParseRequestHeader(RequestHead(f), now).Fail?
  {
    var tail := TailLines("User-Agent", f.userAgent, f.timestamp, f.headers);
    RequestTokensRead(f, tail);
    NumberRoundTrip(3, Limit8);
    assert ParseChecksumType(NatToString(3)).None?;
    RequestRefusedByFirstLine(RequestHead(f), now, |Joined(RequestTokens(f))|);
  }

  /**
   * The content length is a 64-bit field but is read back into 32 bits: a
   * header for a body of 2^32 bytes or more does not read back.
   */
  lemma LongContentNotReadBack(f: RequestFields, now: int)
    requires Word(f.requestMethod) && Word(f.target) && f.contentLength >= Limit32
    ensures ParseRequestHeader(RequestHead(f), now).Fail?
  {
    var tail := TailLines("User-Agent", f.userAgent, f.timestamp, f.headers);
    RequestTokensRead(f, tail);
    DigitsValueOfNatToString(f.contentLength);
    assert ParseUnsigned(NatToString(f.contentLength), Limit32).None?;
    RequestRefusedByFirstLine(RequestHead(f), now, |Joined(RequestTokens(f))|);
  }

  lemma JoinedCons(t: string, rest: seq<string>)
    requires rest != []
    ensures Joined([t] + rest) == t + " " + Joined(rest)
  {
    assert ([t] + rest)[1..] == rest;
  }

  /** A token holding one space joins to the same text as its two halves. */
  lemma {:induction false} JoinedOfSpacedWord(p: seq<string>, a: string, b: string, q: seq<string>)
    ensures Joined(p + [a + " " + b] + q) == Joined(p + [a, b] + q)
    decreases |p|
  {
    var us := p + [a + " " + b] + q;
    var vs := p + [a, b] + q;
    if p == [] {
      assert us == [a + " " + b] + q && vs == [a] + ([b] + q);
      JoinedCons(a, [b] + q);
      if q == [] {
        assert [b] + q == [b];
      } else {
        JoinedCons(a + " " + b, q);
        JoinedCons(b, q);
      }
    } else {
      assert us == [p[0]] + (p[1..] + [a + " " + b] + q);
      assert vs == [p[0]] + (p[1..] + [a, b] + q);
      JoinedCons(p[0], p[1..] + [a + " " + b] + q);
      JoinedCons(p[0], p[1..] + [a, b] + q);
      JoinedOfSpacedWord(p[1..], a, b, q);
    }
  }

  /**
   * A status message of two words, as `set_status_message("Not Found")`
   * makes, turns the status line into seven tokens: `to_string` writes it
   * and `from_string` refuses it.
   */
  lemma SpacedStatusMessageNotReadBack(f: ResponseFields, now: int, a: string, b: string)
    requires f.statusMessage == a + " " + b && Word(a) && Word(b)
    ensures ParseResponseHeader(ResponseHead(f), now).Fail?
  {
    var ts := StatusTokens(f);
    var us := ts[..2] + [a, b] + ts[3..];
    var tail := TailLines("Server", f.server, f.timestamp, f.headers);
    assert ts == ts[..2] + [a + " " + b] + ts[3..];
    JoinedOfSpacedWord(ts[..2], a, b, ts[3..]);
    NumberWord(f.version);
    NumberWord(f.statusCode);
    NumberWord(f.checksumType.Code());
    NumberWord(f.checksumValue);
    NumberWord(f.contentLength);
    assert |us| == 7;
    forall i | 0 <= i < 7
      ensures Word(us[i])
    {
      if i == 0 {} else if i == 1 {} else if i == 2 {} else if i == 3 {} else if i == 4 {} else if i == 5 {} else {}
    }
    FirstLineWords(us, tail);
    ResponseRefusedByFirstLine(ResponseHead(f), now, |Joined(us)|);
  }

  // ------------------------------------------------------------ the header classes

  /** The tokens of a line up to i, when s starts the run of non-spaces that i is in. */
  lemma TokensUpTo(line: string, s: nat, i: nat)
    requires s <= i <= |line| && (s == 0 || line[s - 1] == ' ') && Lacks(line[s..i], ' ')
    ensures Tokens(line[..i]) == Tokens(line[..s]) + (if s < i then [line[s..i]] else [])
    ensures i < |line| && line[i] == ' ' ==>
      Tokens(line[..i + 1]) == Tokens(line[..s]) + (if s < i then [line[s..i]] else [])
  {
    assert line[..i] == line[..s] + line[s..i];
    TokensAppend(line[..s], line[s..i]);
    TokensOfWord(line[s..i]);
    if i < |line| && line[i] == ' ' {
      assert line[..i + 1] == line[..s] + (line[s..i] + " ");
      TokensAppend(line[..s], line[s..i] + " ");
      TokensOfWordSpace(line[s..i]);
    }
  }

  /** Keeping at most ten tokens, one token at a time. */
  lemma FirstTenSnoc(ts: seq<string>, t: string)
    ensures FirstTen(ts + [t]) == if |FirstTen(ts)| < 10 then FirstTen(ts) + [t] else FirstTen(ts)
  {
    if |ts| >= 10 {
      assert (ts + [t])[..10] == ts[..10];
    }
  }

  /** One boundary of the split: the run that ends at i is kept when it is non-empty and fewer than ten are kept. */
  lemma TokenizeStep(line: string, s: nat, i: nat, parts: seq<string>)
    requires s <= i <= |line| && (s == 0 || line[s - 1] == ' ') && Lacks(line[s..i], ' ')
    requires parts == FirstTen(Tokens(line[..s]))
    requires i == |line| || line[i] == ' '
    ensures i < |line| ==> (if i > s && |parts| < 10 then parts + [line[s..i]] else parts) == FirstTen(Tokens(line[..i + 1]))
    ensures i == |line| ==> (if i > s && |parts| < 10 then parts + [line[s..i]] else parts) == FirstTen(Tokens(line))
  {
    TokensUpTo(line, s, i);
    if i > s {
      FirstTenSnoc(Tokens(line[..s]), line[s..i]);
    } else {
      assert Tokens(line[..s]) + [] == Tokens(line[..s]);
    }
    assert i == |line| ==> line[..i] == line;
  }

  /**
   * The split of the first line `data[..le]` at spaces: empty tokens are
   * dropped and at most ten are kept.
   */
  method TokenizeFirstLine(data: string, le: nat) returns (parts: seq<string>)
    requires le <= |data|
    ensures parts == FirstTen(Tokens(data[..le]))
  {
    ghost var line := data[..le];
    parts := [];
    var i, s := 0, 0;
    while i <= le
      invariant s <= i <= le + 1
      invariant i <= le ==> (s == 0 || line[s - 1] == ' ') && Lacks(line[s..i], ' ')
      invariant i <= le ==> parts == FirstTen(Tokens(line[..s]))
      invariant i == le + 1 ==> parts == FirstTen(Tokens(line))
    {
      if i == le || data[i] == ' ' {
        assert i < le ==> line[i] == data[i];
        TokenizeStep(line, s, i, parts);
        if i > s && |parts| < 10 {
          assert data[s..i] == line[s..i];
          parts := parts + [data[s..i]];
        }
        s := i + 1;
      } else {
        assert line[i] == data[i];
        assert line[s..i + 1] == line[s..i] + [line[i]];
      }
      i := i + 1;
    }
  }

  /**
   * The header loop from pos: each line handed to the reader for special,
   * until the empty line, the end of the data or 100 lines.
   */
  /** How reading one header line ends: the headers stop, an error, or the next line's position and the fields so far. */
  datatype LineOutcome = Stop | Broken(reason: string) | Next(pos: nat, acc: Extras)

  /** One turn of the header loop: find the line end, check the length, and read the line. */
  method ReadLine(data: string, pos: nat, count: nat, acc: Extras, special: string, now: int) returns (o: LineOutcome)
    requires pos < |data| && count < MaxLines
    ensures o.Stop? ==> HeaderLines(data, pos, count, acc, ReaderFor(special, now)) == Ok(acc)
    ensures o.Broken? ==> HeaderLines(data, pos, count, acc, ReaderFor(special, now)) == Fail(o.reason)
    ensures o.Next? ==>
      && pos < o.pos
      && HeaderLines(data, pos, count, acc, ReaderFor(special, now)) == HeaderLines(data, o.pos, count + 1, o.acc, ReaderFor(special, now))
  {
    var next := FindCrlf(data, pos);
    if next.None? || next.value == pos {
      return Stop;
    }
    if next.value - pos > MaxLine {
      return Broken("line too long");
    }
    var step := LineStep(data[pos..next.value], acc, special, now);
    if step.Fail? {
      return Broken(step.reason);
    }
    o := Next(next.value + 2, step.value);
  }

  method ReadHeaderLines(data: string, pos0: nat, special: string, now: int) returns (r: Result<Extras>)
    ensures r == HeaderLines(data, pos0, 0, NoExtras, ReaderFor(special, now))
  {
    ghost var goal := HeaderLines(data, pos0, 0, NoExtras, ReaderFor(special, now));
    var pos, count, acc := pos0, 0, NoExtras;
    while pos < |data| && count < MaxLines
      invariant HeaderLines(data, pos, count, acc, ReaderFor(special, now)) == goal
      decreases |data| - pos
    {
      var o := ReadLine(data, pos, count, acc, special, now);
      match o
      case Stop =>
        return Ok(acc);
      case Broken(reason) =>
        return Fail(reason);
      case Next(p, a) =>
        pos, count, acc := p, count + 1, a;
    }
    return Ok(acc);
  }



  lemma EntriesSnoc(ks: seq<string>, k: string, h: map<string, string>)
    requires forall i :: 0 <= i < |ks| ==> ks[i] in h
    requires k in h
    ensures Entries(ks + [k], h) == Entries(ks, h) + [(k, h[k])]
  {
  }

  lemma PairLinesSnoc(ps: seq<(string, string)>, k: string, v: string)
    ensures PairLines(ps + [(k, v)]) == PairLines(ps) + [LineOf(k, v)]
  {
  }

  lemma LinesTextSnoc(ls: seq<string>, l: string)
    ensures LinesText(ls + [l]) == LinesText(ls) + l + "\r\n"
  {
    LinesTextAppend(ls, [l]);
    assert [l][1..] == [];
  }

  lemma Regroup(a: seq<string>, b: seq<string>, c: seq<string>)
    ensures a + (b + c) == (a + b) + c
  {
  }

  /** One round of the key loop: the least remaining key's line goes next. */
  lemma SerializeStep(h: map<string, string>, done: seq<string>, rest: set<string>, k: string)
    requires rest <= h.Keys && forall i :: 0 <= i < |done| ==> done[i] in h
    requires SortedKeys(h.Keys) == done + SortedKeys(rest) && IsLeast(k, rest)
    ensures forall i :: 0 <= i < |done + [k]| ==> (done + [k])[i] in h
    ensures SortedKeys(h.Keys) == (done + [k]) + SortedKeys(rest - {k})
  {
    SortedKeysOfLeast(k, rest);
    Regroup(done, [k], SortedKeys(rest - {k}));
  }

  /** Appending one key to the serialized prefix appends its line. */
  lemma SerializeLine(h: map<string, string>, done: seq<string>, k: string)
    requires k in h && forall i :: 0 <= i < |done| ==> done[i] in h
    ensures LinesText(PairLines(Entries(done + [k], h))) == LinesText(PairLines(Entries(done, h))) + LineOf(k, h[k]) + "\r\n"
  {
    EntriesSnoc(done, k, h);
    PairLinesSnoc(Entries(done, h), k, h[k]);
    LinesTextSnoc(PairLines(Entries(done, h)), LineOf(k, h[k]));
  }

  /**
   * `_serialize_headers_to_string`: a `key: value` line per entry of h, in
   * ascending key order; the sort is taken as picking the least remaining key
   * each time.
   */
  method SerializeHeaders(h: map<string, string>) returns (text: string)
    ensures text == LinesText(MapLines(h))
  {
    var rest := h.Keys;
    ghost var done: seq<string> := [];
    text := [];
    while rest != {}
      invariant rest <= h.Keys
      invariant forall i :: 0 <= i < |done| ==> done[i] in h
      invariant SortedKeys(h.Keys) == done + SortedKeys(rest)
      invariant text == LinesText(PairLines(Entries(done, h)))
      decreases |rest|
    {
      LeastExists(rest);
      var k :| IsLeast(k, rest);
      SerializeStep(h, done, rest, k);
      SerializeLine(h, done, k);
      text := text + LineOf(k, h[k]) + "\r\n";
      done := done + [k];
      rest := rest - {k};
    }
    assert done == SortedKeys(h.Keys);
  }

  /** A six-token first line, as `std::format("{} {} {} {} {} {}\r\n", ...)` writes it. */
  lemma JoinedSix(ts: seq<string>)
    requires |ts| == 6
    ensures Joined(ts) == ts[0] + " " + ts[1] + " " + ts[2] + " " + ts[3] + " " + ts[4] + " " + ts[5]
  {
    assert ts[5..] == [ts[5]];
    assert ts[4..] == [ts[4]] + ts[5..];
    JoinedCons(ts[4], ts[5..]);
    assert ts[3..] == [ts[3]] + ts[4..];
    JoinedCons(ts[3], ts[4..]);
    assert ts[2..] == [ts[2]] + ts[3..];
    JoinedCons(ts[2], ts[3..]);
    assert ts[1..] == [ts[1]] + ts[2..];
    JoinedCons(ts[1], ts[2..]);
    assert ts == [ts[0]] + ts[1..];
    JoinedCons(ts[0], ts[1..]);
  }

  /** The text of a header, piece by piece as `to_string` appends it. */
  lemma HeadText(first: string, special: string, value: string, timestamp: int, h: map<string, string>)
    ensures LinesText([first] + TailLines(special, value, timestamp, h)) ==
      first + "\r\n" + (if value == [] then [] else LineOf(special, value) + "\r\n") +
      LineOf("Timestamp", IntToString(timestamp)) + "\r\n" + LinesText(MapLines(h))
  {
    var opt := if value == [] then [] else [LineOf(special, value)];
    var stamp := LineOf("Timestamp", IntToString(timestamp));
    HeadPieces(first, opt, stamp, MapLines(h));
  }

  lemma HeadPieces(first: string, opt: seq<string>, stamp: string, rest: seq<string>)
    requires |opt| <= 1
    ensures LinesText([first] + (opt + [stamp] + rest)) ==
      first + "\r\n" + (if opt == [] then [] else opt[0] + "\r\n") + stamp + "\r\n" + LinesText(rest)
  {
    assert [first] + (opt + [stamp] + rest) == [first] + opt + [stamp] + rest;
    LinesTextAppend([first] + opt + [stamp], rest);
    LinesTextSnoc([first] + opt, stamp);
    LinesTextAppend([first], opt);
    assert LinesText([first]) == first + "\r\n" by { assert [first][1..] == []; }
    if opt != [] {
      assert LinesText(opt) == opt[0] + "\r\n" by { assert opt[1..] == []; }
    }
  }

  /** `request_header::to_string`, in the order it appends the pieces. */
  lemma RequestText(f: RequestFields)
    ensures RenderRequest(f) ==
      f.requestMethod + " " + f.target + " " + NatToString(f.version) + " " + NatToString(f.checksumType.Code()) + " " +
      NatToString(f.checksumValue) + " " + NatToString(f.contentLength) + "\r\n" +
      (if f.userAgent == [] then [] else LineOf("User-Agent", f.userAgent) + "\r\n") +
      LineOf("Timestamp", IntToString(f.timestamp)) + "\r\n" + LinesText(MapLines(f.headers)) + "\r\n"
  {
    JoinedSix(RequestTokens(f));
    HeadText(Joined(RequestTokens(f)), "User-Agent", f.userAgent, f.timestamp, f.headers);
  }

  /** `response_header::to_string`, in the order it appends the pieces. */
  lemma ResponseText(f: ResponseFields)
    ensures RenderResponse(f) ==
      NatToString(f.version) + " " + NatToString(f.statusCode) + " " + f.statusMessage + " " +
      NatToString(f.checksumType.Code()) + " " + NatToString(f.checksumValue) + " " + NatToString(f.contentLength) + "\r\n" +
      (if f.server == [] then [] else LineOf("Server", f.server) + "\r\n") +
      LineOf("Timestamp", IntToString(f.timestamp)) + "\r\n" + LinesText(MapLines(f.headers)) + "\r\n"
  {
    JoinedSix(StatusTokens(f));
    HeadText(Joined(StatusTokens(f)), "Server", f.server, f.timestamp, f.headers);
  }

  /**
   * The parse of `request_header::from_string` into temporaries: the length check,
   * the first line, then the header lines.
   */
  method ReadRequestHeader(data: string, now: int) returns (r: Result<RequestFields>)
    ensures r == ParseRequestHeader(data, now)
  {
    if |data| < MinHeader {
      return Fail("too short");
    }
    var found := FindCrlf(data, 0);
    if found.None? {
      return Fail("no line end");
    }
    var le := found.value;
    var parts := TokenizeFirstLine(data, le);
    var first := ParseRequestLine(parts);
    if first.Fail? {
      return Fail(first.reason);
    }
    var rest := ReadHeaderLines(data, le + 2, "User-Agent", now);
    if rest.Fail? {
      return Fail(rest.reason);
    }
    var f, x := first.value, rest.value;
    RequestHeaderOf(data, now, le, f, x);
    return Ok(f.(userAgent := x.special, timestamp := x.timestamp, headers := x.headers));
  }

  /** `request_header`: the request line fields and `User-Agent` over the shared `protocol_header`. */
  class RequestHeader {
    const common: ProtocolHeader
    var requestMethod: string
    var target: string
    var userAgent: string
    var timestamp: int

    function Fields(): RequestFields
      reads this, common
    {
      RequestFields(requestMethod, target, userAgent, common.version, common.checksumType,
        common.checksumValue, common.contentLength, timestamp, common.headers)
    }

    /** Empty method, target and agent, the shared defaults, stamped with the clock reading now. */
    constructor(now: int)
      ensures fresh(common)
      ensures Fields() == RequestFields("", "", "", 1, Crc, 0, 0, now, map[])
      ensures common.protocolType == CustomTcp
    {
      common := new ProtocolHeader();
      requestMethod, target, userAgent := "", "", "";
      timestamp := now;
    }

    /**
     * `from_string`: on success every field is the parse of data; on failure
     * no field changes, since the parse commits only at the end.
     */
    method FromString(data: string, now: int) returns (ok: bool)
      modifies this, common
      ensures ok <==> ParseRequestHeader(data, now).Ok?
      ensures ok ==> Fields() == ParseRequestHeader(data, now).value
      ensures !ok ==> Fields() == old(Fields())
      ensures common.protocolType == old(common.protocolType)
    {
      var r := ReadRequestHeader(data, now);
      if r.Fail? {
        return false;
      }
      var f := r.value;
      requestMethod, target, userAgent, timestamp := f.requestMethod, f.target, f.userAgent, f.timestamp;
      common.version, common.checksumType, common.checksumValue := f.version, f.checksumType, f.checksumValue;
      common.contentLength, common.headers := f.contentLength, f.headers;
      return true;
    }

    /** `to_string`: the first line, the optional `User-Agent` line, `Timestamp`, the sorted headers and an empty line. */
    method ToString() returns (out: string)
      ensures out == RenderRequest(Fields())
    {
      out := requestMethod + " " + target + " " + NatToString(common.version) + " " +
        NatToString(common.checksumType.Code()) + " " + NatToString(common.checksumValue) + " " +
        NatToString(common.contentLength) + "\r\n";
      if userAgent != [] {
        out := out + (LineOf("User-Agent", userAgent) + "\r\n");
      } else {
        assert out + [] == out;
      }
      out := out + LineOf("Timestamp", IntToString(timestamp)) + "\r\n";
      var lines := SerializeHeaders(common.headers);
      out := out + lines + "\r\n";
      RequestText(Fields());
    }
  }

  /**
   * The parse of `response_header::from_string` into temporaries: the length check,
   * the first line, then the header lines.
   */
  method ReadResponseHeader(data: string, now: int) returns (r: Result<ResponseFields>)
    ensures r == ParseResponseHeader(data, now)
  {
    if |data| < MinHeader {
      return Fail("too short");
    }
    var found := FindCrlf(data, 0);
    if found.None? {
      return Fail("no line end");
    }
    var le := found.value;
    var parts := TokenizeFirstLine(data, le);
    var first := ParseStatusLine(parts);
    if first.Fail? {
      return Fail(first.reason);
    }
    var rest := ReadHeaderLines(data, le + 2, "Server", now);
    if rest.Fail? {
      return Fail(rest.reason);
    }
    var f, x := first.value, rest.value;
    ResponseHeaderOf(data, now, le, f, x);
    return Ok(f.(server := x.special, timestamp := x.timestamp, headers := x.headers));
  }

  /** `response_header`: the status line fields and `Server` over the shared `protocol_header`. */
  class ResponseHeader {
    const common: ProtocolHeader
    var statusCode: Word16
    var statusMessage: string
    var server: string
    var timestamp: int

    function Fields(): ResponseFields
      reads this, common
    {
      ResponseFields(common.version, statusCode, statusMessage, server, common.checksumType,
        common.checksumValue, common.contentLength, timestamp, common.headers)
    }

    /** Status 200 `OK`, no server, the shared defaults, stamped with the clock reading now. */
    constructor(now: int)
      ensures fresh(common)
      ensures Fields() == ResponseFields(1, 200, "OK", "", Crc, 0, 0, now, map[])
      ensures common.protocolType == CustomTcp
    {
      common := new ProtocolHeader();
      statusCode, statusMessage, server := 200, "OK", "";
      timestamp := now;
    }

    /**
     * `from_string`: on success every field is the parse of data; on failure
     * no field changes.
     */
    method FromString(data: string, now: int) returns (ok: bool)
      modifies this, common
      ensures ok <==> ParseResponseHeader(data, now).Ok?
      ensures ok ==> Fields() == ParseResponseHeader(data, now).value
      ensures !ok ==> Fields() == old(Fields())
      ensures common.protocolType == old(common.protocolType)
    {
      var r := ReadResponseHeader(data, now);
      if r.Fail? {
        return false;
      }
      var f := r.value;
      statusCode, statusMessage, server, timestamp := f.statusCode, f.statusMessage, f.server, f.timestamp;
      common.version, common.checksumType, common.checksumValue := f.version, f.checksumType, f.checksumValue;
      common.contentLength, common.headers := f.contentLength, f.headers;
      return true;
    }

    /** `to_string`: the status line, the optional `Server` line, `Timestamp`, the sorted headers and an empty line. */
    method ToString() returns (out: string)
      ensures out == RenderResponse(Fields())
    {
      out := NatToString(common.version) + " " + NatToString(statusCode) + " " + statusMessage + " " +
        NatToString(common.checksumType.Code()) + " " + NatToString(common.checksumValue) + " " +
        NatToString(common.contentLength) + "\r\n";
      if server != [] {
        out := out + (LineOf("Server", server) + "\r\n");
      } else {
        assert out + [] == out;
      }
      out := out + LineOf("Timestamp", IntToString(timestamp)) + "\r\n";
      var lines := SerializeHeaders(common.headers);
      out := out + lines + "\r\n";
      ResponseText(Fields());
    }
  }

  // ------------------------------------------------------------ whole messages

  /** A body matches a header when its length and check code are the recorded ones. */
  predicate Intact(kind: ChecksumType, value: Word32, length: nat, body: string, digests: Digests)
  {
    |body| == length && CheckCode(kind, body, digests) == value
  }

  /**
   * What `from_string` of a whole message takes from data: the header up to
   * the first empty line, which parse must accept, and everything after
   * that line as the body.
   */
  function SplitMessage<F>(data: string, parse: string -> Result<F>): (r: Option<(F, string)>)
    ensures FindBlank(data, 0).None? ==> r.None?
    ensures r.Some? ==> |r.value.1| + 4 <= |data|
  {
    match FindBlank(data, 0)
    case None => None
    case Some(e) =>
      match parse(data[..e + 2])
      case Fail(_) => None
      case Ok(f) => Some((f, data[e + 4..]))
  }

  /** `request_header::from_string` as the header parser of `request`. */
  function RequestParser(now: int): (parse: string -> Result<RequestFields>)
    ensures forall data :: parse(data) == ParseRequestHeader(data, now)
  {
    data => ParseRequestHeader(data, now)
  }

  function ResponseParser(now: int): (parse: string -> Result<ResponseFields>)
    ensures forall data :: parse(data) == ParseResponseHeader(data, now)
  {
    data => ParseResponseHeader(data, now)
  }

  /** The split once the empty line is found at e: the header parse decides. */
  lemma SplitMessageAt<F>(data: string, parse: string -> Result<F>, e: nat)
    requires FindBlank(data, 0) == Some(e)
    ensures parse(data[..e + 2]).Fail? ==> SplitMessage(data, parse).None?
    ensures parse(data[..e + 2]).Ok? ==> SplitMessage(data, parse) == Some((parse(data[..e + 2]).value, data[e + 4..]))
  {
  }

  /** The first empty line after rendered header lines is the one that ends them. */
  lemma SplitAfterLines(first: string, tail: seq<string>, body: string)
    requires first != [] && Clean(first) && GoodLines(tail)
    ensures FindBlank(LinesText([first] + tail) + "\r\n" + body, 0) == Some(|LinesText([first] + tail)| - 2)
    ensures (LinesText([first] + tail) + "\r\n" + body)[..|LinesText([first] + tail)|] == LinesText([first] + tail)
    ensures (LinesText([first] + tail) + "\r\n" + body)[|LinesText([first] + tail)| + 2..] == body
  {
    var ls := [first] + tail;
    GoodLinesEach(tail);
    assert forall i :: 1 <= i < |ls| ==> ls[i] == tail[i - 1];
    FindBlankOfLines(ls, body);
  }

  /** The rendered first line is a non-empty line without line breaks. */
  lemma RequestLineClean(f: RequestFields)
    requires RequestLineWellFormed(f)
    ensures Joined(RequestTokens(f)) != [] && Clean(Joined(RequestTokens(f)))
  {
    var ts := RequestTokens(f);
    NumberWord(f.version);
    NumberWord(f.checksumType.Code());
    NumberWord(f.checksumValue);
    NumberWord(f.contentLength);
    forall i | 0 <= i < |ts|
      ensures Word(ts[i])
    {
      if i == 0 {} else if i == 1 {} else if i == 2 {} else if i == 3 {} else if i == 4 {} else {}
    }
    JoinedLacks(ts, '\r');
    JoinedLacks(ts, '\n');
    JoinedLength(ts);
  }

  lemma ResponseLineClean(f: ResponseFields)
    requires StatusLineWellFormed(f)
    ensures Joined(StatusTokens(f)) != [] && Clean(Joined(StatusTokens(f)))
  {
    var ts := StatusTokens(f);
    NumberWord(f.version);
    NumberWord(f.statusCode);
    NumberWord(f.checksumType.Code());
    NumberWord(f.checksumValue);
    NumberWord(f.contentLength);
    forall i | 0 <= i < |ts|
      ensures Word(ts[i])
    {
      if i == 0 {} else if i == 1 {} else if i == 2 {} else if i == 3 {} else if i == 4 {} else {}
    }
    JoinedLacks(ts, '\r');
    JoinedLacks(ts, '\n');
    JoinedLength(ts);
  }

  /** A header that parses, followed by any body, splits back into both. */
  lemma SplitOf<F>(first: string, tail: seq<string>, body: string, parse: string -> Result<F>, f: F)
    requires first != [] && Clean(first) && GoodLines(tail)
    requires parse(LinesText([first] + tail)) == Ok(f)
    ensures SplitMessage(LinesText([first] + tail) + "\r\n" + body, parse) == Some((f, body))
  {
    SplitAfterLines(first, tail, body);
  }

  /**
   * A well-formed request header followed by any body, even one holding an
   * empty line of its own, splits back into that header and that body.
   */
  lemma RequestMessageRoundTrip(f: RequestFields, body: string, now: int)
    requires RequestWellFormed(f, now)
    ensures SplitMessage(RenderRequest(f) + body, RequestParser(now)) == Some((f, body))
  {
    var first := Joined(RequestTokens(f));
    var tail := TailLines("User-Agent", f.userAgent, f.timestamp, f.headers);
    TailLinesGood("User-Agent", f.userAgent, f.timestamp, f.headers, now);
    RequestLineClean(f);
    RequestHeaderRoundTrip(f, now);
    SplitOf(first, tail, body, RequestParser(now), f);
  }

  lemma ResponseMessageRoundTrip(f: ResponseFields, body: string, now: int)
    requires ResponseWellFormed(f, now)
    ensures SplitMessage(RenderResponse(f) + body, ResponseParser(now)) == Some((f, body))
  {
    var first := Joined(StatusTokens(f));
    var tail := TailLines("Server", f.server, f.timestamp, f.headers);
    TailLinesGood("Server", f.server, f.timestamp, f.headers, now);
    ResponseLineClean(f);
    ResponseHeaderRoundTrip(f, now);
    SplitOf(first, tail, body, ResponseParser(now), f);
  }

  /**
   * `request`: a header, a body and a cache of the full text. The cache is
   * only ever valid when it holds the rendering of the current header and
   * body, with the checksum and length recorded for that body.
   */
  class Request {
    const header: RequestHeader
    const digests: Digests
    var message: string
    var cachedFull: string
    var cacheValid: bool

    ghost predicate Valid()
      reads this, header, header.common
    {
      cacheValid ==>
        cachedFull == RenderRequest(header.Fields()) + message &&
        Intact(header.common.checksumType, header.common.checksumValue, header.common.contentLength, message, digests)
    }

    /** A default header stamped with the clock reading now, an empty body and no cache. */
    constructor(now: int, digests: Digests)
      ensures Valid() && fresh(header) && fresh(header.common)
      ensures header.Fields() == RequestFields("", "", "", 1, Crc, 0, 0, now, map[])
      ensures message == [] && !cacheValid && this.digests == digests
    {
      header := new RequestHeader(now);
      this.digests := digests;
      message, cachedFull, cacheValid := [], [], false;
    }

    /** `set_message`: a new body, and the cache is dropped. */
    method SetMessage(body: string)
      modifies this
      ensures Valid()
      ensures message == body && !cacheValid && cachedFull == old(cachedFull)
    {
      message := body;
      cacheValid := false;
    }

    /** The non-const `header()`: whoever holds the header may change it, so the cache is dropped. */
    method MutableHeader() returns (h: RequestHeader)
      modifies this
      ensures Valid()
      ensures h == header && !cacheValid && message == old(message) && cachedFull == old(cachedFull)
    {
      cacheValid := false;
      h := header;
    }

    /** `verify_integrity`: the body has the recorded length and check code. */
    function VerifyIntegrity(): (ok: bool)
      reads this, header, header.common
      ensures ok <==> Intact(header.common.checksumType, header.common.checksumValue, header.common.contentLength, message, digests)
    {
      header.common.VerifyIntegrity(message, digests)
    }

    /**
     * `to_string`: on a stale cache, records the body's checksum and length
     * in the header and caches header text plus body; the result is always
     * the current rendering, and the body then verifies.
     */
    method ToString() returns (s: string)
      requires Valid()
      modifies this, header.common
      ensures Valid() && cacheValid && s == cachedFull
      ensures s == RenderRequest(header.Fields()) + message
      ensures VerifyIntegrity()
      ensures message == old(message)
      ensures old(cacheValid) ==> header.Fields() == old(header.Fields())
      ensures !old(cacheValid) ==> header.Fields() == old(header.Fields()).(
        checksumValue := CheckCode(old(header.common.checksumType), message, digests), contentLength := |message|)
      ensures header.common.protocolType == old(header.common.protocolType)
    {
      if !cacheValid {
        var _ := header.common.CalculateAndSetChecksum(message, digests);
        var text := header.ToString();
        cachedFull := text + message;
        cacheValid := true;
      }
      s := cachedFull;
    }

    /**
     * `from_string`: the header up to the first empty line must parse,
     * otherwise nothing changes; then the rest is the body, the cache is
     * dropped, and the result says whether the body verifies.
     */
    method FromString(data: string, now: int) returns (ok: bool)
      requires Valid()
      modifies this, header, header.common
      ensures Valid()
      ensures SplitMessage(data, RequestParser(now)).None? ==>
        !ok && header.Fields() == old(header.Fields()) && message == old(message) &&
        cacheValid == old(cacheValid) && cachedFull == old(cachedFull)
      ensures SplitMessage(data, RequestParser(now)).Some? ==>
        header.Fields() == SplitMessage(data, RequestParser(now)).value.0 && message == SplitMessage(data, RequestParser(now)).value.1 && !cacheValid &&
        (ok <==> Intact(header.common.checksumType, header.common.checksumValue, header.common.contentLength, message, digests))
      ensures header.common.protocolType == old(header.common.protocolType)
    {
      var found := FindBlank(data, 0);
      if found.None? {
        return false;
      }
      var e := found.value;
      SplitMessageAt(data, RequestParser(now), e);
      var parsed := header.FromString(data[..e + 2], now);
      if !parsed {
        return false;
      }
      if e + 4 < |data| {
        message := data[e + 4..];
      } else {
        message := [];
      }
      cacheValid := false;
      ok := header.common.VerifyIntegrity(message, digests);
    }
  }

  /**
   * `response`: a header, a body and a cache of the full text. The cache is
   * only ever valid when it holds the rendering of the current header and
   * body, with the checksum and length recorded for that body.
   */
  class Response {
    const header: ResponseHeader
    const digests: Digests
    var message: string
    var cachedFull: string
    var cacheValid: bool

    ghost predicate Valid()
      reads this, header, header.common
    {
      cacheValid ==>
        cachedFull == RenderResponse(header.Fields()) + message &&
        Intact(header.common.checksumType, header.common.checksumValue, header.common.contentLength, message, digests)
    }

    /** A default header stamped with the clock reading now, an empty body and no cache. */
    constructor(now: int, digests: Digests)
      ensures Valid() && fresh(header) && fresh(header.common)
      ensures header.Fields() == ResponseFields(1, 200, "OK", "", Crc, 0, 0, now, map[])
      ensures message == [] && !cacheValid && this.digests == digests
    {
      header := new ResponseHeader(now);
      this.digests := digests;
      message, cachedFull, cacheValid := [], [], false;
    }

    /** `set_message`: a new body, and the cache is dropped. */
    method SetMessage(body: string)
      modifies this
      ensures Valid()
      ensures message == body && !cacheValid && cachedFull == old(cachedFull)
    {
      message := body;
      cacheValid := false;
    }

    /** The non-const `header()`: whoever holds the header may change it, so the cache is dropped. */
    method MutableHeader() returns (h: ResponseHeader)
      modifies this
      ensures Valid()
      ensures h == header && !cacheValid && message == old(message) && cachedFull == old(cachedFull)
    {
      cacheValid := false;
      h := header;
    }

    /** `verify_integrity`: the body has the recorded length and check code. */
    function VerifyIntegrity(): (ok: bool)
      reads this, header, header.common
      ensures ok <==> Intact(header.common.checksumType, header.common.checksumValue, header.common.contentLength, message, digests)
    {
      header.common.VerifyIntegrity(message, digests)
    }

    /**
     * `to_string`: on a stale cache, records the body's checksum and length
     * in the header and caches header text plus body; the result is always
     * the current rendering, and the body then verifies.
     */
    method ToString() returns (s: string)
      requires Valid()
      modifies this, header.common
      ensures Valid() && cacheValid && s == cachedFull
      ensures s == RenderResponse(header.Fields()) + message
      ensures VerifyIntegrity()
      ensures message == old(message)
      ensures old(cacheValid) ==> header.Fields() == old(header.Fields())
      ensures !old(cacheValid) ==> header.Fields() == old(header.Fields()).(
        checksumValue := CheckCode(old(header.common.checksumType), message, digests), contentLength := |message|)
      ensures header.common.protocolType == old(header.common.protocolType)
    {
      if !cacheValid {
        var _ := header.common.CalculateAndSetChecksum(message, digests);
        var text := header.ToString();
        cachedFull := text + message;
        cacheValid := true;
      }
      s := cachedFull;
    }

    /**
     * `from_string`: the header up to the first empty line must parse,
     * otherwise nothing changes; then the rest is the body, the cache is
     * dropped, and the result says whether the body verifies.
     */
    method FromString(data: string, now: int) returns (ok: bool)
      requires Valid()
      modifies this, header, header.common
      ensures Valid()
      ensures SplitMessage(data, ResponseParser(now)).None? ==>
        !ok && header.Fields() == old(header.Fields()) && message == old(message) &&
        cacheValid == old(cacheValid) && cachedFull == old(cachedFull)
      ensures SplitMessage(data, ResponseParser(now)).Some? ==>
        header.Fields() == SplitMessage(data, ResponseParser(now)).value.0 && message == SplitMessage(data, ResponseParser(now)).value.1 && !cacheValid &&
        (ok <==> Intact(header.common.checksumType, header.common.checksumValue, header.common.contentLength, message, digests))
      ensures header.common.protocolType == old(header.common.protocolType)
    {
      var found := FindBlank(data, 0);
      if found.None? {
        return false;
      }
      var e := found.value;
      SplitMessageAt(data, ResponseParser(now), e);
      var parsed := header.FromString(data[..e + 2], now);
      if !parsed {
        return false;
      }
      if e + 4 < |data| {
        message := data[e + 4..];
      } else {
        message := [];
      }
      cacheValid := false;
      ok := header.common.VerifyIntegrity(message, digests);
    }
  }
}
