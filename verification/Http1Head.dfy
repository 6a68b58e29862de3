/** Status lines, header lines and the choice of body framing. */
module Http1Head {
  import opened Wrappers
  import opened Bytes
  import opened Http1Lines
  import opened Http1Model

  const COLON: u8 := 58
  const COMMA: u8 := 44

  const CONTENT_LENGTH := Ascii("content-length")
  const TRANSFER_ENCODING := Ascii("transfer-encoding")
  const CHUNKED := Ascii("chunked")

  predicate VisibleText(b: Bytes) {
    forall i :: 0 <= i < |b| ==> !IsControl(b[i]) || b[i] == TAB
  }

  // -------------------------------------------------------------- status line

  datatype StatusLine = StatusLine(version: Version, statusCode: nat, reason: Bytes)

  function ParseVersion(b: Bytes): Option<Version> {
    if b == Ascii("HTTP/1.0") then Some(Http10)
    else if b == Ascii("HTTP/1.1") then Some(Http11)
    else None
  }

  function ParseStatusLine(line: Bytes): (r: Http1Result<StatusLine>)
    ensures r.Success? ==> 100 <= r.value.statusCode <= 999
    ensures r.Failure? ==> r.error.InvalidResponse?
  {
    if TAB in line then Failure(InvalidResponse(StatusLineTab))
    else match FindByte(line, SPACE)
      case None => Failure(InvalidResponse(StatusCodeMissing))
      case Some(space) =>
        match ParseVersion(line[..space])
        case None => Failure(InvalidResponse(UnsupportedVersion))
        case Some(version) => ParseStatusCode(version, line[space + 1..])
  }

  function ParseStatusCode(version: Version, rest: Bytes): (r: Http1Result<StatusLine>)
    ensures r.Success? ==> 100 <= r.value.statusCode <= 999
    ensures r.Failure? ==> r.error.InvalidResponse?
  {
    if |rest| < 3 || !AllDigits(rest[..3]) then
      Failure(InvalidResponse(StatusCodeDigits))
    else if |rest| > 3 && rest[3] != SPACE then
      Failure(InvalidResponse(StatusCodeSpace))
    else
      var digits := rest[..3];
      assert IsDigit(digits[0]) && IsDigit(digits[1]) && IsDigit(digits[2]);
      var code := (rest[0] as int - 48) * 100 + (rest[1] as int - 48) * 10 + (rest[2] as int - 48);
      if code < 100 then Failure(InvalidResponse(StatusCodeRange))
      else
        var reason := if |rest| > 3 then rest[4..] else [];
        if VisibleText(reason) then Success(StatusLine(version, code, reason))
        else Failure(InvalidResponse(ReasonByte))
  }

  // ------------------------------------------------------------- header lines

  const PROHIBITED_TRAILERS: set<Bytes> := {
    CONTENT_LENGTH, TRANSFER_ENCODING, Ascii("host"), Ascii("connection"),
    Ascii("trailer"), Ascii("upgrade"), Ascii("proxy-connection")}

  predicate AllTokens(b: Bytes) {
    forall i :: 0 <= i < |b| ==> IsToken(b[i])
  }

  function ParseHeaderLine(line: Bytes, limits: Limits, trailers: bool): (r: Http1Result<Header>)
    ensures r.Failure? ==> r.error.InvalidResponse?
  {
    if line == [] then Failure(InvalidResponse(EmptyHeaderLine))
    else if IsOws(line[0]) then Failure(InvalidResponse(FoldedHeader))
    else match FindByte(line, COLON)
      case None => Failure(InvalidResponse(MissingColon))
      case Some(colon) => ParseField(line[..colon], line[colon + 1..], limits, trailers)
  }

  function ParseField(name: Bytes, value: Bytes, limits: Limits, trailers: bool): (r: Http1Result<Header>)
    ensures r.Failure? ==> r.error.InvalidResponse?
  {
    if name == [] then Failure(InvalidResponse(EmptyHeaderName))
    else if |name| > limits.maximumHeaderNameBytes then Failure(InvalidResponse(HeaderNameTooLong))
    else if !AllTokens(name) then Failure(InvalidResponse(HeaderNameByte))
    else if trailers && Lower(name) in PROHIBITED_TRAILERS then Failure(InvalidResponse(ProhibitedTrailer))
    else
      var value := TrimOws(value);
      if |value| > limits.maximumHeaderValueBytes then Failure(InvalidResponse(HeaderValueTooLong))
      else if !VisibleText(value) then Failure(InvalidResponse(HeaderValueByte))
      else Success(Header(Lower(name), value))
  }

  function ParseEachLine(lines: seq<Bytes>, limits: Limits, trailers: bool): (r: Http1Result<seq<Header>>)
    ensures r.Failure? ==> r.error.InvalidResponse?
    ensures r.Success? ==> |r.value| == |lines|
    ensures r.Success? ==>
              forall i :: 0 <= i < |lines| ==> ParseHeaderLine(lines[i], limits, trailers) == Success(r.value[i])
  {
    if lines == [] then Success([])
    else
      var header :- ParseHeaderLine(lines[0], limits, trailers);
      var rest :- ParseEachLine(lines[1..], limits, trailers);
      Success([header] + rest)
  }

  function CountLimit(limits: Limits, trailers: bool): nat {
    if trailers then limits.maximumTrailerCount else limits.maximumHeaderCount
  }

  function ParseHeaderLines(lines: seq<Bytes>, limits: Limits, trailers: bool): (r: Http1Result<seq<Header>>)
    ensures r.Failure? ==> r.error.InvalidResponse?
    ensures r.Success? ==> |r.value| == |lines| <= CountLimit(limits, trailers)
    ensures r.Success? ==>
              forall i :: 0 <= i < |lines| ==> ParseHeaderLine(lines[i], limits, trailers) == Success(r.value[i])
  {
    if |lines| > CountLimit(limits, trailers) then
      Failure(InvalidResponse(if trailers then ResponseFault.TrailerCount else ResponseFault.HeaderCount))
    else ParseEachLine(lines, limits, trailers)
  }

  /** Lines that each parse give a list that parses to the same headers. */
  lemma {:induction false} EachLineParses(lines: seq<Bytes>, headers: seq<Header>, limits: Limits, trailers: bool)
    requires |lines| == |headers|
    requires forall i :: 0 <= i < |lines| ==> ParseHeaderLine(lines[i], limits, trailers) == Success(headers[i])
    ensures ParseEachLine(lines, limits, trailers) == Success(headers)
  {
    hide ParseHeaderLine;
    if lines != [] {
      EachLineParses(lines[1..], headers[1..], limits, trailers);
      assert headers == [headers[0]] + headers[1..];
    }
  }

  /** No accepted trailer carries a name that could change framing or routing. */
  lemma AcceptedTrailersPermitted(lines: seq<Bytes>, limits: Limits)
    requires ParseHeaderLines(lines, limits, true).Success?
    ensures forall h :: h in ParseHeaderLines(lines, limits, true).value ==> h.name !in PROHIBITED_TRAILERS
  {
    hide ParseHeaderLine, PROHIBITED_TRAILERS;
    var headers := ParseHeaderLines(lines, limits, true).value;
    forall h | h in headers
      ensures h.name !in PROHIBITED_TRAILERS
    {
      var i :| 0 <= i < |headers| && headers[i] == h;
      TrailerPermitted(lines[i], limits);
    }
  }

  lemma TrailerPermitted(line: Bytes, limits: Limits)
    requires ParseHeaderLine(line, limits, true).Success?
    ensures ParseHeaderLine(line, limits, true).value.name !in PROHIBITED_TRAILERS
  {
    hide PROHIBITED_TRAILERS, TrimOws, AllTokens, VisibleText;
  }

  // --------------------------------------------------------------- components

  function TrimEach(parts: seq<Bytes>): (r: seq<Bytes>)
    ensures |r| == |parts|
    ensures forall i :: 0 <= i < |parts| ==> r[i] == TrimOws(parts[i])
  {
    seq(|parts|, i requires 0 <= i < |parts| => TrimOws(parts[i]))
  }

  /** The comma-separated, trimmed components of every header called name, in order. */
  function Components(headers: seq<Header>, name: Bytes): seq<Bytes> {
    if headers == [] then []
    else
      (if headers[0].name == name then TrimEach(SplitOn(headers[0].value, COMMA)) else [])
      + Components(headers[1..], name)
  }

  predicate Names(headers: seq<Header>, name: Bytes) {
    exists h :: h in headers && h.name == name
  }

  lemma {:induction false} ComponentsExist(headers: seq<Header>, name: Bytes)
    ensures Components(headers, name) != [] <==> Names(headers, name)
  {
    if headers != [] {
      ComponentsExist(headers[1..], name);
      assert headers == [headers[0]] + headers[1..];
    }
  }

  // ----------------------------------------------------------- Content-Length

  function LengthOf(component: Bytes): (r: Http1Result<nat>)
    ensures r.Failure? ==> r.error.InvalidResponse?
  {
    if component == [] || !AllDigits(component) then Failure(InvalidResponse(ContentLengthMalformed))
    else if DecimalValue(component) > U64_MAX then Failure(InvalidResponse(ContentLengthOverflow))
    else Success(DecimalValue(component))
  }

  function LengthsOf(components: seq<Bytes>): (r: Http1Result<seq<nat>>)
    ensures r.Failure? ==> r.error.InvalidResponse?
    ensures r.Success? ==> |r.value| == |components|
    ensures r.Success? ==> forall i :: 0 <= i < |components| ==> LengthOf(components[i]) == Success(r.value[i])
  {
    if components == [] then Success([])
    else
      var length :- LengthOf(components[0]);
      var rest :- LengthsOf(components[1..]);
      Success([length] + rest)
  }

  function AgreedLength(lengths: seq<nat>): (r: Http1Result<Option<nat>>)
    ensures r.Failure? ==> r.error.InvalidResponse?
  {
    if lengths == [] then Success(None)
    else if exists i :: 0 <= i < |lengths| && lengths[i] != lengths[0] then
      Failure(InvalidResponse(ContentLengthConflict))
    else Success(Some(lengths[0]))
  }

  function ParseContentLength(headers: seq<Header>): (r: Http1Result<Option<nat>>)
    ensures r.Failure? ==> r.error.InvalidResponse?
  {
    var lengths :- LengthsOf(Components(headers, CONTENT_LENGTH));
    AgreedLength(lengths)
  }

  /** component is a decimal numeral of n. */
  predicate Denotes(component: Bytes, n: nat) {
    component != [] && AllDigits(component) && DecimalValue(component) == n
  }

  predicate Declares(components: seq<Bytes>, n: nat) {
    components != [] && forall i :: 0 <= i < |components| ==> Denotes(components[i], n)
  }

  lemma {:induction false} LengthsOfAgreeing(components: seq<Bytes>, n: nat)
    requires n <= U64_MAX
    requires forall i :: 0 <= i < |components| ==> Denotes(components[i], n)
    ensures LengthsOf(components).Success?
    ensures forall i :: 0 <= i < |components| ==> LengthsOf(components).value[i] == n
  {
    if components != [] {
      assert Denotes(components[0], n);
      LengthsOfAgreeing(components[1..], n);
    }
  }

  /** A length is accepted exactly when every component of every Content-Length denotes it. */
  lemma ContentLengthExact(headers: seq<Header>, n: nat)
    ensures ParseContentLength(headers) == Success(Some(n))
       <==> n <= U64_MAX && Declares(Components(headers, CONTENT_LENGTH), n)
    ensures ParseContentLength(headers) == Success(None) <==> !Names(headers, CONTENT_LENGTH)
  {
    var components := Components(headers, CONTENT_LENGTH);
    ComponentsExist(headers, CONTENT_LENGTH);
    if n <= U64_MAX && Declares(components, n) {
      LengthsOfAgreeing(components, n);
    }
    if ParseContentLength(headers) == Success(Some(n)) {
      var lengths := LengthsOf(components).value;
      forall i | 0 <= i < |components|
        ensures Denotes(components[i], n)
      {
        assert LengthOf(components[i]) == Success(lengths[i]);
        assert lengths[i] == lengths[0];
      }
      assert LengthOf(components[0]) == Success(lengths[0]);
    }
  }

  // -------------------------------------------------------- Transfer-Encoding

  function CodingOf(component: Bytes): (r: Http1Result<Bytes>)
    ensures r.Failure? ==> r.error.InvalidResponse?
  {
    var token := Lower(component);
    if token == [] || !AllTokens(token) then Failure(InvalidResponse(TransferCodingMalformed))
    else Success(token)
  }

  function CodingsOf(components: seq<Bytes>): (r: Http1Result<seq<Bytes>>)
    ensures r.Failure? ==> r.error.InvalidResponse?
    ensures r.Success? ==> |r.value| == |components|
    ensures r.Success? ==> forall i :: 0 <= i < |components| ==> r.value[i] == Lower(components[i])
  {
    if components == [] then Success([])
    else
      var coding :- CodingOf(components[0]);
      var rest :- CodingsOf(components[1..]);
      Success([coding] + rest)
  }

  function OnlyChunked(codings: seq<Bytes>): (r: Http1Result<bool>)
    ensures r.Failure? ==> r.error.InvalidResponse?
  {
    if codings == [] then Success(false)
    else if codings == [CHUNKED] then Success(true)
    else Failure(InvalidResponse(TransferCodingUnsupported))
  }

  function ParseTransferEncoding(headers: seq<Header>): (r: Http1Result<bool>)
    ensures r.Failure? ==> r.error.InvalidResponse?
  {
    var codings :- CodingsOf(Components(headers, TRANSFER_ENCODING));
    OnlyChunked(codings)
  }

  lemma ChunkedIsToken()
    ensures AllTokens(CHUNKED)
  {
  }

  /** Chunked is recognised exactly when it is the one and only coding named. */
  lemma TransferEncodingExact(headers: seq<Header>)
    ensures ParseTransferEncoding(headers) == Success(false) <==> !Names(headers, TRANSFER_ENCODING)
    ensures ParseTransferEncoding(headers) == Success(true)
       <==> |Components(headers, TRANSFER_ENCODING)| == 1 && Lower(Components(headers, TRANSFER_ENCODING)[0]) == CHUNKED
  {
    ComponentsExist(headers, TRANSFER_ENCODING);
    var components := Components(headers, TRANSFER_ENCODING);
    if |components| == 1 {
      ChunkedIsToken();
      assert CodingsOf(components[1..]) == Success([]);
    }
  }

  // ------------------------------------------------------------------ framing

  predicate NeverHasBody(requestMethod: Bytes, statusCode: nat) {
    Lower(requestMethod) == Ascii("head") || 100 <= statusCode < 200 || statusCode == 204 || statusCode == 304
  }

  function DetermineFraming(requestMethod: Bytes, version: Version, statusCode: nat, headers: seq<Header>)
    : (r: Http1Result<Framing>)
    ensures r.Failure? ==> r.error.InvalidResponse?
  {
    if NeverHasBody(requestMethod, statusCode) then Success(NoBody)
    else
      var length :- ParseContentLength(headers);
      var chunked :- ParseTransferEncoding(headers);
      if length.Some? && chunked then Failure(InvalidResponse(LengthAndTransferCoding))
      else if chunked then
        if version.Http11? then Success(Chunked) else Failure(InvalidResponse(ChunkedRequiresHttp11))
      else if length.Some? then Success(ContentLength(length.value))
      else Success(ConnectionClose)
  }

  /** What each framing says about the message, in the terms of section 6.3 of RFC 9112. */
  ghost predicate FramingJustified(framing: Framing, requestMethod: Bytes, version: Version, statusCode: nat,
                                   headers: seq<Header>)
  {
    if NeverHasBody(requestMethod, statusCode) then framing.NoBody?
    else match framing
      case NoBody => false
      case ContentLength(n) =>
        && n <= U64_MAX
        && Declares(Components(headers, CONTENT_LENGTH), n)
        && !Names(headers, TRANSFER_ENCODING)
      case Chunked =>
        && version.Http11?
        && !Names(headers, CONTENT_LENGTH)
        && |Components(headers, TRANSFER_ENCODING)| == 1
        && Lower(Components(headers, TRANSFER_ENCODING)[0]) == CHUNKED
      case ConnectionClose => !Names(headers, CONTENT_LENGTH) && !Names(headers, TRANSFER_ENCODING)
  }

  /** A framing is chosen exactly when the message justifies it. */
  lemma FramingExact(framing: Framing, requestMethod: Bytes, version: Version, statusCode: nat, headers: seq<Header>)
    ensures DetermineFraming(requestMethod, version, statusCode, headers) == Success(framing)
       <==> FramingJustified(framing, requestMethod, version, statusCode, headers)
  {
    hide ParseContentLength, ParseTransferEncoding, Components, Names, Declares, NeverHasBody;
    ContentLengthExact(headers, if framing.ContentLength? then framing.length else 0);
    TransferEncodingExact(headers);
    ComponentsExist(headers, CONTENT_LENGTH);
    ComponentsExist(headers, TRANSFER_ENCODING);
    if ParseContentLength(headers).Success? && ParseContentLength(headers).value.Some? {
      ContentLengthExact(headers, ParseContentLength(headers).value.value);
    }
  }

  /** At most one framing is justified. */
  lemma FramingUnambiguous(f: Framing, g: Framing, requestMethod: Bytes, version: Version, statusCode: nat,
                           headers: seq<Header>)
    requires FramingJustified(f, requestMethod, version, statusCode, headers)
    requires FramingJustified(g, requestMethod, version, statusCode, headers)
    ensures f == g
  {
    hide DetermineFraming, FramingJustified;
    FramingExact(f, requestMethod, version, statusCode, headers);
    FramingExact(g, requestMethod, version, statusCode, headers);
  }

  // --------------------------------------------------------------- whole head

  datatype Head = Head(status: StatusLine, headers: seq<Header>)

  /** The head inside a block that ends in CRLFCRLF. */
  function ParseHead(block: Bytes, limits: Limits): (r: Http1Result<Head>)
    requires |block| >= 4
    ensures r.Failure? ==> r.error.InvalidResponse?
    ensures r.Success? ==> 100 <= r.value.status.statusCode <= 999
    ensures r.Success? ==> |r.value.headers| <= limits.maximumHeaderCount
  {
    match LineFaultFrom(block, 0)
    case Some(fault) => Failure(InvalidResponse(LineEnding(fault)))
    case None =>
      var lines := SplitCrlf(block[..|block| - 4]);
      var status :- ParseStatusLine(lines[0]);
      var headers :- ParseHeaderLines(lines[1..], limits, false);
      Success(Head(status, headers))
  }

  // ------------------------------------------------------- the source's loops

  method ParseHeaders(lines: seq<Bytes>, limits: Limits, trailers: bool) returns (r: Http1Result<seq<Header>>)
    ensures r == ParseHeaderLines(lines, limits, trailers)
  {
    if |lines| > CountLimit(limits, trailers) {
      return Failure(InvalidResponse(if trailers then ResponseFault.TrailerCount else ResponseFault.HeaderCount));
    }
    var output := [];
    ghost var whole := ParseEachLine(lines, limits, trailers);
    PrependNothing(whole);
    assert lines[0..] == lines;
    for i := 0 to |lines|
      invariant whole == Prepend(output, ParseEachLine(lines[i..], limits, trailers))
    {
      assert lines[i..][1..] == lines[i + 1..];
      var header := ParseHeaderLine(lines[i], limits, trailers);
      if header.Failure? {
        return Failure(header.error);
      }
      PrependOne(output, header.value, ParseEachLine(lines[i + 1..], limits, trailers));
      output := output + [header.value];
    }
    assert output + [] == output;
    r := Success(output);
  }

  /** Appends the lengths a header value names; later stands for the components of the headers still to come. */
  method AppendLengths(value: Bytes, done: seq<nat>, ghost later: seq<Bytes>) returns (r: Http1Result<seq<nat>>)
    ensures r.Success? ==>
              Prepend(done, LengthsOf(TrimEach(SplitOn(value, COMMA)) + later)) == Prepend(r.value, LengthsOf(later))
    ensures r.Failure? ==>
              Prepend(done, LengthsOf(TrimEach(SplitOn(value, COMMA)) + later)) == Failure(r.error)
  {
    var values := done;
    var parts := SplitOn(value, COMMA);
    ghost var trimmed := TrimEach(parts);
    assert trimmed[0..] == trimmed;
    for j := 0 to |parts|
      invariant Prepend(done, LengthsOf(trimmed + later)) == Prepend(values, LengthsOf(trimmed[j..] + later))
    {
      ghost var todo := trimmed[j..] + later;
      assert todo[1..] == trimmed[j + 1..] + later;
      var component := TrimWhiteSpace(parts[j]);
      var length := LengthOf(component);
      if length.Failure? {
        return Failure(length.error);
      }
      PrependOne(values, length.value, LengthsOf(todo[1..]));
      values := values + [length.value];
    }
    assert trimmed[|parts|..] + later == later;
    r := Success(values);
  }

  method CollectContentLength(headers: seq<Header>) returns (r: Http1Result<Option<nat>>)
    ensures r == ParseContentLength(headers)
  {
    var values: seq<nat> := [];
    ghost var whole := LengthsOf(Components(headers, CONTENT_LENGTH));
    PrependNothing(whole);
    assert headers[0..] == headers;
    for i := 0 to |headers|
      invariant whole == Prepend(values, LengthsOf(Components(headers[i..], CONTENT_LENGTH)))
    {
      assert headers[i..][1..] == headers[i + 1..];
      ghost var later := Components(headers[i + 1..], CONTENT_LENGTH);
      if headers[i].name == CONTENT_LENGTH {
        var more := AppendLengths(headers[i].value, values, later);
        if more.Failure? {
          return Failure(more.error);
        }
        values := more.value;
      } else {
        assert [] + later == later;
      }
    }
    assert values + [] == values;
    r := AgreedLength(values);
  }

  method AppendCodings(value: Bytes, done: seq<Bytes>, ghost later: seq<Bytes>) returns (r: Http1Result<seq<Bytes>>)
    ensures r.Success? ==>
              Prepend(done, CodingsOf(TrimEach(SplitOn(value, COMMA)) + later)) == Prepend(r.value, CodingsOf(later))
    ensures r.Failure? ==>
              Prepend(done, CodingsOf(TrimEach(SplitOn(value, COMMA)) + later)) == Failure(r.error)
  {
    var tokens := done;
    var parts := SplitOn(value, COMMA);
    ghost var trimmed := TrimEach(parts);
    assert trimmed[0..] == trimmed;
    for j := 0 to |parts|
      invariant Prepend(done, CodingsOf(trimmed + later)) == Prepend(tokens, CodingsOf(trimmed[j..] + later))
    {
      ghost var todo := trimmed[j..] + later;
      assert todo[1..] == trimmed[j + 1..] + later;
      var component := TrimWhiteSpace(parts[j]);
      var token := CodingOf(component);
      if token.Failure? {
        return Failure(token.error);
      }
      PrependOne(tokens, token.value, CodingsOf(todo[1..]));
      tokens := tokens + [token.value];
    }
    assert trimmed[|parts|..] + later == later;
    r := Success(tokens);
  }

  method CollectTransferEncoding(headers: seq<Header>) returns (r: Http1Result<bool>)
    ensures r == ParseTransferEncoding(headers)
  {
    var tokens: seq<Bytes> := [];
    ghost var whole := CodingsOf(Components(headers, TRANSFER_ENCODING));
    PrependNothing(whole);
    assert headers[0..] == headers;
    for i := 0 to |headers|
      invariant whole == Prepend(tokens, CodingsOf(Components(headers[i..], TRANSFER_ENCODING)))
    {
      assert headers[i..][1..] == headers[i + 1..];
      ghost var later := Components(headers[i + 1..], TRANSFER_ENCODING);
      if headers[i].name == TRANSFER_ENCODING {
        var more := AppendCodings(headers[i].value, tokens, later);
        if more.Failure? {
          return Failure(more.error);
        }
        tokens := more.value;
      } else {
        assert [] + later == later;
      }
    }
    assert tokens + [] == tokens;
    r := OnlyChunked(tokens);
  }
}
