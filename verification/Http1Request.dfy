/** Printing a request, and reading the print back with the response-side splitters. */
module Http1Request {
  import opened Wrappers
  import opened Bytes
  import opened Http1Lines
  import opened Http1Model
  import opened Http1Head

  const HOST := Ascii("Host")
  const CONTENT_LENGTH_FIELD := Ascii("Content-Length")
  const CONNECTION := Ascii("Connection")
  const CLOSE := Ascii("close")
  const VERSION_SUFFIX := Ascii(" HTTP/1.1")
  const COLON_SPACE := Ascii(": ")

  // ----------------------------------------------------------------- validation

  const MANAGED_HEADERS: set<Bytes> := {
    Ascii("host"), CONTENT_LENGTH, TRANSFER_ENCODING, Ascii("connection"), Ascii("proxy-connection"),
    Ascii("expect"), Ascii("upgrade"), Ascii("trailer"), Ascii("te")}

  const SENSITIVE_HEADERS: set<Bytes> := {
    Ascii("authorization"), Ascii("proxy-authorization"), Ascii("cookie"), Ascii("x-api-key"), Ascii("x-csrf-token")}

  /** Neither a control octet nor a space. */
  predicate Graphic(b: Bytes) {
    forall i :: 0 <= i < |b| ==> !IsControl(b[i]) && b[i] != SPACE
  }

  predicate ValidMethod(m: Bytes) {
    && 0 < |m| <= 32
    && AllTokens(m)
    && (forall i :: 0 <= i < |m| ==> !IsLower(m[i]))
    && m != Ascii("CONNECT")
  }

  predicate ValidTarget(m: Bytes, target: Bytes) {
    && 0 < |target| <= 8 * 1024
    && Graphic(target)
    && 35 !in target
    && !(Ascii("http://") <= target)
    && !(Ascii("https://") <= target)
    && !(Ascii("//") <= target)
    && if target == Ascii("*") then m == Ascii("OPTIONS") else target[0] == 47
  }

  predicate ValidAuthority(authority: Bytes) {
    authority != [] && Graphic(authority) && 47 !in authority && 92 !in authority && 64 !in authority
  }

  function HeaderFault(h: Header, limits: Limits): Option<RequestFault> {
    if h.name == [] || |h.name| > limits.maximumHeaderNameBytes || !AllTokens(h.name) then Some(HeaderInvalid)
    else if |h.value| > limits.maximumHeaderValueBytes || !VisibleText(h.value) then Some(HeaderInvalid)
    else if Lower(h.name) in MANAGED_HEADERS then Some(ManagedHeader)
    else if Lower(h.name) in SENSITIVE_HEADERS then Some(SensitiveHeader)
    else None
  }

  /** The fault of the first header that has one. */
  function HeadersFault(headers: seq<Header>, limits: Limits): (r: Option<RequestFault>)
    ensures r.None? ==> forall i :: 0 <= i < |headers| ==> HeaderFault(headers[i], limits).None?
  {
    if headers == [] then None
    else if HeaderFault(headers[0], limits).Some? then HeaderFault(headers[0], limits)
    else HeadersFault(headers[1..], limits)
  }

  function Fault(request: Request, authority: Bytes, limits: Limits): Option<RequestFault> {
    if !ValidMethod(request.requestMethod) then Some(MethodInvalid)
    else if !ValidTarget(request.requestMethod, request.target) then Some(TargetInvalid)
    else if !ValidAuthority(authority) then Some(AuthorityMalformed)
    else if |request.body| > limits.maximumRequestBodyBytes then Some(BodyTooLarge)
    else if HeadersFault(request.headers, limits).Some? then HeadersFault(request.headers, limits)
    else if |request.headers| + 3 > limits.maximumHeaderCount then Some(RequestHeaderCount)
    else if |Terminated(HeadLines(request, authority)) + CRLF| > limits.maximumRequestHeaderBytes then
      Some(RequestHeaderBlockTooLarge)
    else None
  }

  // ------------------------------------------------------------------- the print

  function RequestLine(request: Request): Bytes {
    request.requestMethod + [SPACE] + request.target + VERSION_SUFFIX
  }

  function FieldLine(name: Bytes, value: Bytes): Bytes {
    name + COLON_SPACE + value
  }

  function CallerLines(headers: seq<Header>): (lines: seq<Bytes>)
    ensures |lines| == |headers|
    ensures forall i :: 0 <= i < |headers| ==> lines[i] == FieldLine(Lower(headers[i].name), headers[i].value)
  {
    seq(|headers|, i requires 0 <= i < |headers| => FieldLine(Lower(headers[i].name), headers[i].value))
  }

  function Preamble(request: Request, authority: Bytes): seq<Bytes> {
    [RequestLine(request), FieldLine(HOST, authority)]
  }

  function Closing(request: Request): seq<Bytes> {
    [FieldLine(CONTENT_LENGTH_FIELD, Decimal(|request.body|)), FieldLine(CONNECTION, CLOSE)]
  }

  /** The request line, one Host, the caller's headers in order, one Content-Length and one Connection. */
  function HeadLines(request: Request, authority: Bytes): (lines: seq<Bytes>)
    ensures |lines| == |request.headers| + 4
  {
    Preamble(request, authority) + CallerLines(request.headers) + Closing(request)
  }

  /** Every line followed by CRLF. */
  function Terminated(lines: seq<Bytes>): Bytes {
    if lines == [] then [] else Terminated(lines[..|lines| - 1]) + lines[|lines| - 1] + CRLF
  }

  function Wire(request: Request, authority: Bytes): Bytes {
    Terminated(HeadLines(request, authority)) + CRLF + request.body
  }

  lemma TerminatedAppends(lines: seq<Bytes>, line: Bytes)
    ensures Terminated(lines + [line]) == Terminated(lines) + line + CRLF
  {
    assert (lines + [line])[..|lines|] == lines;
  }

  lemma {:induction false} TerminatedCons(line: Bytes, lines: seq<Bytes>)
    ensures Terminated([line] + lines) == line + CRLF + Terminated(lines)
    decreases |lines|
  {
    if lines == [] {
      assert [line] + lines == [line] && [line][..0] == [];
      assert line + CRLF + [] == [] + line + CRLF;
    } else {
      var init, last := lines[..|lines| - 1], lines[|lines| - 1];
      assert [line] + lines == ([line] + init) + [last];
      TerminatedAppends([line] + init, last);
      TerminatedCons(line, init);
    }
  }

  lemma {:induction false} TerminatedIsJoin(lines: seq<Bytes>)
    requires lines != []
    ensures Terminated(lines) == JoinCrlf(lines) + CRLF
    decreases |lines|
  {
    TerminatedCons(lines[0], lines[1..]);
    assert lines == [lines[0]] + lines[1..];
    if |lines| == 1 {
      assert Terminated(lines[1..]) == [];
    } else {
      TerminatedIsJoin(lines[1..]);
      assert lines[0] + CRLF + (JoinCrlf(lines[1..]) + CRLF) == JoinCrlf(lines) + CRLF;
    }
  }

  // ------------------------------------------------------------- clean lines

  lemma TokensClean(b: Bytes)
    requires AllTokens(b)
    ensures Clean(b) && COLON !in b && SPACE !in b
  {
    assert forall i :: 0 <= i < |b| ==> IsToken(b[i]);
  }

  lemma FieldLineClean(name: Bytes, value: Bytes)
    requires Clean(name) && Clean(value)
    ensures Clean(FieldLine(name, value)) && FieldLine(name, value) != []
  {
    var line := FieldLine(name, value);
    assert Clean(COLON_SPACE);
    assert forall i :: 0 <= i < |line| ==>
      line[i] == if i < |name| then name[i]
                 else if i < |name| + 2 then COLON_SPACE[i - |name|]
                 else value[i - |name| - 2];
  }

  lemma LowerKeepsTokens(b: Bytes)
    requires AllTokens(b)
    ensures AllTokens(Lower(b))
  {
    assert forall i :: 0 <= i < |b| ==> IsToken(b[i]);
  }

  lemma CallerLineClean(h: Header, limits: Limits)
    requires HeaderFault(h, limits).None?
    ensures Clean(FieldLine(Lower(h.name), h.value)) && FieldLine(Lower(h.name), h.value) != []
  {
    hide FieldLine, IsToken, MANAGED_HEADERS, SENSITIVE_HEADERS;
    LowerKeepsTokens(h.name);
    TokensClean(Lower(h.name));
    FieldLineClean(Lower(h.name), h.value);
  }

  lemma LiteralsClean()
    ensures Clean(HOST) && Clean(CONTENT_LENGTH_FIELD) && Clean(CONNECTION) && Clean(CLOSE) && Clean(VERSION_SUFFIX)
  {
  }

  lemma DigitsClean(b: Bytes)
    requires AllDigits(b)
    ensures Clean(b)
  {
    assert forall i :: 0 <= i < |b| ==> IsDigit(b[i]);
  }

  lemma RequestLineClean(request: Request)
    requires ValidMethod(request.requestMethod) && ValidTarget(request.requestMethod, request.target)
    ensures Clean(RequestLine(request)) && RequestLine(request) != []
  {
    hide IsToken;
    var m, t, v := request.requestMethod, request.target, VERSION_SUFFIX;
    TokensClean(m);
    LiteralsClean();
    assert Clean(t);
    var line := RequestLine(request);
    assert line == m + [SPACE] + t + v;
    forall i | 0 <= i < |line|
      ensures line[i] != CR && line[i] != LF
    {
      if i < |m| {
        assert line[i] == m[i];
      } else if |m| < i < |m| + 1 + |t| {
        assert line[i] == t[i - |m| - 1];
      } else if i > |m| {
        assert line[i] == v[i - |m| - 1 - |t|];
      }
    }
  }

  /** No printed line is empty or holds CR or LF. */
  lemma HeadLinesClean(request: Request, authority: Bytes, limits: Limits)
    requires Fault(request, authority, limits).None?
    ensures AllClean(HeadLines(request, authority)) && NoneEmpty(HeadLines(request, authority))
  {
    hide RequestLine, FieldLine, ValidMethod, ValidTarget, Terminated, HeaderFault;
    RequestLineClean(request);
    LiteralsClean();
    AuthorityClean(authority);
    FieldLineClean(HOST, authority);
    DigitsClean(Decimal(|request.body|));
    FieldLineClean(CONTENT_LENGTH_FIELD, Decimal(|request.body|));
    FieldLineClean(CONNECTION, CLOSE);
    forall i | 0 <= i < |request.headers|
      ensures Clean(CallerLines(request.headers)[i]) && CallerLines(request.headers)[i] != []
    {
      CallerLineClean(request.headers[i], limits);
    }
    var lines, n := HeadLines(request, authority), |request.headers|;
    forall i | 0 <= i < |lines|
      ensures Clean(lines[i]) && lines[i] != []
    {
      if 2 <= i < n + 2 {
        assert lines[i] == CallerLines(request.headers)[i - 2];
      } else if i >= n + 2 {
        assert lines[i] == Closing(request)[i - n - 2];
      } else {
        assert lines[i] == Preamble(request, authority)[i];
      }
    }
  }

  lemma AuthorityClean(authority: Bytes)
    requires ValidAuthority(authority)
    ensures Clean(authority)
  {
  }

  // ------------------------------------------------------------------ round trip

  /**
   * For every accepted request the first CRLFCRLF of the wire is the end of its head, the octets
   * after it are the body, and cutting the head gives back the printed lines.
   */
  lemma WireSplitsBack(request: Request, authority: Bytes, limits: Limits)
    requires Fault(request, authority, limits).None?
    ensures var wire := Wire(request, authority);
      var end := |wire| - |request.body|;
      && FindDoubleCrlf(wire) == Some(end)
      && wire[end..] == request.body
      && PairedCrlf(wire[..end])
      && SplitCrlf(wire[..end - 4]) == HeadLines(request, authority)
  {
    hide Fault, HeadLines, Terminated, JoinCrlf, SplitCrlf, PairedCrlf;
    var lines := HeadLines(request, authority);
    HeadLinesClean(request, authority, limits);
    TerminatedIsJoin(lines);
    BlockEndsAtDoubleCrlf(lines, request.body);
    JoinedBlockIsPaired(lines);
    SplitOfJoin(lines);
    var wire := Wire(request, authority);
    assert wire == JoinCrlf(lines) + CRLF + CRLF + request.body;
    var end := |JoinCrlf(lines)| + 4;
    assert wire[..end] == JoinCrlf(lines) + CRLF + CRLF;
    assert wire[..end - 4] == JoinCrlf(lines);
  }

  /** A printed header line reads back as its lowercased name and trimmed value. */
  lemma FieldLineParses(name: Bytes, value: Bytes, limits: Limits)
    requires name != [] && AllTokens(name) && |name| <= limits.maximumHeaderNameBytes
    requires VisibleText(value) && |TrimOws(value)| <= limits.maximumHeaderValueBytes
    ensures ParseHeaderLine(FieldLine(name, value), limits, false) == Success(Header(Lower(name), TrimOws(value)))
  {
    hide TrimOws, PROHIBITED_TRAILERS, IsToken;
    var line := FieldLine(name, value);
    TokensClean(name);
    NameStartsLine(name);
    assert line[..|name|] == name && line[|name|] == COLON && line[|name| + 1..] == [SPACE] + value;
    assert forall j :: 0 <= j < |name| ==> line[j] == name[j];
    assert FindByte(line, COLON) == Some(|name|);
    TrimOwsAbsorbsLead([SPACE], value);
    TrimKeepsVisible(value);
  }

  lemma NameStartsLine(name: Bytes)
    requires name != [] && AllTokens(name)
    ensures !IsOws(name[0])
  {
    assert IsToken(name[0]);
  }

  lemma TrimKeepsVisible(value: Bytes)
    requires VisibleText(value)
    ensures VisibleText(TrimOws(value)) && |TrimOws(value)| <= |value|
  {
    hide TrimOws;
    var lead, trail := TrimOwsSplits(value);
    var core := TrimOws(value);
    assert forall i :: 0 <= i < |core| ==> core[i] == value[i + |lead|];
  }

  function ReadBack(headers: seq<Header>): (r: seq<Header>)
    ensures |r| == |headers|
    ensures forall i :: 0 <= i < |headers| ==> r[i] == Header(Lower(headers[i].name), TrimOws(headers[i].value))
  {
    seq(|headers|, i requires 0 <= i < |headers| => Header(Lower(headers[i].name), TrimOws(headers[i].value)))
  }

  lemma CallerLineParses(h: Header, limits: Limits)
    requires HeaderFault(h, limits).None?
    ensures ParseHeaderLine(FieldLine(Lower(h.name), h.value), limits, false)
         == Success(Header(Lower(h.name), TrimOws(h.value)))
  {
    hide TrimOws, ParseHeaderLine, FieldLine, MANAGED_HEADERS, SENSITIVE_HEADERS, IsToken;
    LowerKeepsTokens(h.name);
    TrimKeepsVisible(h.value);
    FieldLineParses(Lower(h.name), h.value, limits);
    LowerIdempotent(h.name);
  }

  /** The caller's lines parse to the caller's headers: names in lower case, values trimmed, order kept. */
  lemma CallerHeadersReadBack(request: Request, authority: Bytes, limits: Limits)
    requires Fault(request, authority, limits).None?
    ensures ParseHeaderLines(CallerLines(request.headers), limits, false) == Success(ReadBack(request.headers))
  {
    hide ParseHeaderLine, HeaderFault, Terminated, HeadLines, ValidMethod, ValidTarget, ValidAuthority;
    var headers := request.headers;
    forall i | 0 <= i < |headers|
      ensures ParseHeaderLine(CallerLines(headers)[i], limits, false) == Success(ReadBack(headers)[i])
    {
      CallerLineParses(headers[i], limits);
    }
    EachLineParses(CallerLines(headers), ReadBack(headers), limits, false);
  }

  // ---------------------------------------------------- framing of the request

  function FrameHeaders(request: Request, authority: Bytes): (r: seq<Header>)
    ensures |r| == |request.headers| + 3
  {
    [Header(Ascii("host"), TrimOws(authority))]
    + ReadBack(request.headers)
    + [Header(CONTENT_LENGTH, TrimOws(Decimal(|request.body|))), Header(Ascii("connection"), TrimOws(CLOSE))]
  }

  /** A reader whose limits admit the managed headers. */
  predicate Reads(reader: Limits, request: Request, authority: Bytes) {
    && reader.maximumHeaderCount >= |request.headers| + 3
    && reader.maximumHeaderNameBytes >= 14
    && reader.maximumHeaderValueBytes >= |authority|
    && reader.maximumHeaderValueBytes >= |Decimal(|request.body|)|
    && reader.maximumHeaderValueBytes >= 5
    && forall i :: 0 <= i < |request.headers| ==>
         && |request.headers[i].name| <= reader.maximumHeaderNameBytes
         && |request.headers[i].value| <= reader.maximumHeaderValueBytes
  }

  lemma ManagedNames()
    ensures AllTokens(HOST) && AllTokens(CONTENT_LENGTH_FIELD) && AllTokens(CONNECTION)
    ensures Lower(HOST) == Ascii("host") && Lower(CONTENT_LENGTH_FIELD) == CONTENT_LENGTH
    ensures Lower(CONNECTION) == Ascii("connection")
    ensures VisibleText(CLOSE)
  {
  }

  lemma DigitsVisible(b: Bytes)
    requires AllDigits(b)
    ensures VisibleText(b)
  {
    assert forall i :: 0 <= i < |b| ==> IsDigit(b[i]);
  }

  lemma HostLineParses(authority: Bytes, reader: Limits)
    requires ValidAuthority(authority)
    requires reader.maximumHeaderNameBytes >= 14 && reader.maximumHeaderValueBytes >= |authority|
    ensures ParseHeaderLine(FieldLine(HOST, authority), reader, false)
         == Success(Header(Ascii("host"), TrimOws(authority)))
  {
    hide TrimOws, ParseHeaderLine, FieldLine, AllTokens, Lower;
    ManagedNames();
    TrimKeepsVisible(authority);
    FieldLineParses(HOST, authority, reader);
  }

  lemma LengthLineParses(n: nat, reader: Limits)
    requires reader.maximumHeaderNameBytes >= 14 && reader.maximumHeaderValueBytes >= |Decimal(n)|
    ensures ParseHeaderLine(FieldLine(CONTENT_LENGTH_FIELD, Decimal(n)), reader, false)
         == Success(Header(CONTENT_LENGTH, TrimOws(Decimal(n))))
  {
    hide TrimOws, ParseHeaderLine, FieldLine, AllTokens, Lower;
    ManagedNames();
    DigitsVisible(Decimal(n));
    TrimKeepsVisible(Decimal(n));
    FieldLineParses(CONTENT_LENGTH_FIELD, Decimal(n), reader);
  }

  lemma ConnectionLineParses(reader: Limits)
    requires reader.maximumHeaderNameBytes >= 14 && reader.maximumHeaderValueBytes >= 5
    ensures ParseHeaderLine(FieldLine(CONNECTION, CLOSE), reader, false)
         == Success(Header(Ascii("connection"), TrimOws(CLOSE)))
  {
    hide TrimOws, ParseHeaderLine, FieldLine, AllTokens, Lower;
    ManagedNames();
    TrimKeepsVisible(CLOSE);
    FieldLineParses(CONNECTION, CLOSE, reader);
  }

  lemma CallerLineParsesFor(h: Header, limits: Limits, reader: Limits)
    requires HeaderFault(h, limits).None?
    requires |h.name| <= reader.maximumHeaderNameBytes && |h.value| <= reader.maximumHeaderValueBytes
    ensures ParseHeaderLine(FieldLine(Lower(h.name), h.value), reader, false)
         == Success(Header(Lower(h.name), TrimOws(h.value)))
  {
    hide ParseHeaderLine, FieldLine, MANAGED_HEADERS, SENSITIVE_HEADERS, TrimOws, IsToken;
    assert HeaderFault(h, reader).None?;
    CallerLineParses(h, reader);
  }

  /** All printed header lines, in order, as a reader sees them. */
  lemma HeadReadsBack(request: Request, authority: Bytes, limits: Limits, reader: Limits)
    requires Fault(request, authority, limits).None? && Reads(reader, request, authority)
    ensures ParseHeaderLines(HeadLines(request, authority)[1..], reader, false)
         == Success(FrameHeaders(request, authority))
  {
    hide ParseHeaderLine, HeaderFault, Terminated, ValidMethod, ValidTarget, FieldLine, TrimOws, Decimal, RequestLine;
    var lines, headers, n := HeadLines(request, authority)[1..], FrameHeaders(request, authority), |request.headers|;
    HostLineParses(authority, reader);
    LengthLineParses(|request.body|, reader);
    ConnectionLineParses(reader);
    forall i | 0 <= i < |lines|
      ensures ParseHeaderLine(lines[i], reader, false) == Success(headers[i])
    {
      if 1 <= i <= n {
        assert lines[i] == CallerLines(request.headers)[i - 1];
        assert headers[i] == ReadBack(request.headers)[i - 1];
        CallerLineParsesFor(request.headers[i - 1], limits, reader);
      } else if i == 0 {
        assert lines[0] == Preamble(request, authority)[1];
      } else {
        assert lines[i] == Closing(request)[i - n - 1];
      }
    }
    EachLineParses(lines, headers, reader, false);
  }

  lemma {:induction false} NoComponents(headers: seq<Header>, name: Bytes)
    requires forall i :: 0 <= i < |headers| ==> headers[i].name != name
    ensures Components(headers, name) == []
  {
    if headers != [] {
      NoComponents(headers[1..], name);
    }
  }

  lemma {:induction false} ComponentsAppend(a: seq<Header>, b: seq<Header>, name: Bytes)
    ensures Components(a + b, name) == Components(a, name) + Components(b, name)
  {
    if a == [] {
      assert a + b == b;
    } else {
      assert (a + b)[1..] == a[1..] + b;
      ComponentsAppend(a[1..], b, name);
    }
  }

  lemma NumeralIsOneComponent(n: nat)
    ensures TrimEach(SplitOn(TrimOws(Decimal(n)), COMMA)) == [Decimal(n)]
  {
    var d := Decimal(n);
    assert forall i :: 0 <= i < |d| ==> IsDigit(d[i]);
    assert d == [] + d + [];
    TrimOwsUnique([], d, []);
  }

  lemma CallerNamesUnmanaged(request: Request, authority: Bytes, limits: Limits, i: nat)
    requires Fault(request, authority, limits).None? && i < |request.headers|
    ensures ReadBack(request.headers)[i].name !in MANAGED_HEADERS
  {
    hide SENSITIVE_HEADERS, MANAGED_HEADERS, Terminated, HeadLines, ValidMethod, ValidTarget;
    assert HeaderFault(request.headers[i], limits).None?;
  }

  lemma FrameNamesDistinct()
    ensures Ascii("host") != CONTENT_LENGTH && Ascii("connection") != CONTENT_LENGTH
    ensures Ascii("host") != TRANSFER_ENCODING && Ascii("connection") != TRANSFER_ENCODING
    ensures CONTENT_LENGTH != TRANSFER_ENCODING
    ensures CONTENT_LENGTH in MANAGED_HEADERS && TRANSFER_ENCODING in MANAGED_HEADERS
  {
    assert CONTENT_LENGTH[0] == 99 && TRANSFER_ENCODING[0] == 116 && Ascii("host")[0] == 104;
    assert |Ascii("connection")| == 10 && |CONTENT_LENGTH| == 14;
  }

  /** The printed head declares the length of the body and names no transfer coding. */
  lemma PrintedFramingUnambiguous(request: Request, authority: Bytes, limits: ValidLimits)
    requires Fault(request, authority, limits).None?
    ensures ParseContentLength(FrameHeaders(request, authority)) == Success(Some(|request.body|))
    ensures ParseTransferEncoding(FrameHeaders(request, authority)) == Success(false)
  {
    hide Fault, Decimal, TrimOws, SplitOn, TrimEach, MANAGED_HEADERS, DecimalValue;
    hide ParseContentLength, ParseTransferEncoding;
    var first: seq<Header> := [Header(Ascii("host"), TrimOws(authority))];
    var callers := ReadBack(request.headers);
    var n := |request.body|;
    AcceptedBodyFits(request, authority, limits);
    var last: seq<Header> := [Header(CONTENT_LENGTH, TrimOws(Decimal(n))), Header(Ascii("connection"), TrimOws(CLOSE))];
    FrameNamesDistinct();
    forall i | 0 <= i < |callers|
      ensures callers[i].name != CONTENT_LENGTH && callers[i].name != TRANSFER_ENCODING
    {
      CallerNamesUnmanaged(request, authority, limits, i);
    }
    LacksBoth(first, callers, CONTENT_LENGTH);
    LacksBoth(first, callers, TRANSFER_ENCODING);
    PrintedComponents(first + callers, last, n);
    ContentLengthExact(first + callers + last, n);
    TransferEncodingExact(first + callers + last);
    ComponentsExist(first + callers + last, TRANSFER_ENCODING);
  }

  lemma AcceptedBodyFits(request: Request, authority: Bytes, limits: ValidLimits)
    requires Fault(request, authority, limits).None?
    ensures |request.body| <= 64 * 1024 * 1024
  {
    hide Terminated, HeadLines, ValidMethod, ValidTarget, HeadersFault;
    assert limits.Valid();
  }

  lemma LacksBoth(a: seq<Header>, b: seq<Header>, name: Bytes)
    requires forall i :: 0 <= i < |a| ==> a[i].name != name
    requires forall i :: 0 <= i < |b| ==> b[i].name != name
    ensures Components(a + b, name) == []
  {
    hide Components;
    ComponentsAppend(a, b, name);
    NoComponents(a, name);
    NoComponents(b, name);
  }

  lemma PrintedComponents(head: seq<Header>, last: seq<Header>, n: nat)
    requires Components(head, CONTENT_LENGTH) == [] && Components(head, TRANSFER_ENCODING) == []
    requires |last| == 2 && last[0] == Header(CONTENT_LENGTH, TrimOws(Decimal(n)))
    requires last[1].name != CONTENT_LENGTH && last[1].name != TRANSFER_ENCODING && CONTENT_LENGTH != TRANSFER_ENCODING
    ensures Components(head + last, CONTENT_LENGTH) == [Decimal(n)]
    ensures Components(head + last, TRANSFER_ENCODING) == []
    ensures Declares([Decimal(n)], n)
  {
    hide Decimal, TrimOws, SplitOn, TrimEach, DecimalValue, Components, Declares, CONTENT_LENGTH, TRANSFER_ENCODING;
    ComponentsAppend(head, last, CONTENT_LENGTH);
    ComponentsAppend(head, last, TRANSFER_ENCODING);
    NoComponents(last, TRANSFER_ENCODING);
    LengthComponent(last, n);
    NumeralDeclares(n);
  }

  lemma NumeralDeclares(n: nat)
    ensures Declares([Decimal(n)], n)
  {
  }

  lemma LengthComponent(last: seq<Header>, n: nat)
    requires |last| == 2 && last[0] == Header(CONTENT_LENGTH, TrimOws(Decimal(n))) && last[1].name != CONTENT_LENGTH
    ensures Components(last, CONTENT_LENGTH) == [Decimal(n)]
  {
    hide Decimal, TrimOws, SplitOn, TrimEach, CONTENT_LENGTH;
    NumeralIsOneComponent(n);
    NoComponents(last[1..], CONTENT_LENGTH);
  }

  // ------------------------------------------------------------------- injectivity

  lemma FirstAfter(line: Bytes, k: nat, c: u8)
    requires k < |line| && line[k] == c && c !in line[..k]
    ensures FindByte(line, c) == Some(k)
  {
    assert forall j :: 0 <= j < k ==> line[..k][j] == line[j];
  }

  lemma RequestLineInjective(a: Request, b: Request)
    requires AllTokens(a.requestMethod) && AllTokens(b.requestMethod)
    requires RequestLine(a) == RequestLine(b)
    ensures a.requestMethod == b.requestMethod && a.target == b.target
  {
    hide IsToken, VERSION_SUFFIX;
    TokensClean(a.requestMethod);
    TokensClean(b.requestMethod);
    var line := RequestLine(a);
    var m, n := |a.requestMethod|, |b.requestMethod|;
    assert line[..m] == a.requestMethod && line[m] == SPACE;
    assert line[..n] == b.requestMethod && line[n] == SPACE;
    FirstAfter(line, m, SPACE);
    FirstAfter(line, n, SPACE);
    assert line[m + 1..m + 1 + |a.target|] == a.target;
    assert line[m + 1..m + 1 + |b.target|] == b.target;
  }

  lemma FieldLineInjective(n: Bytes, v: Bytes, n': Bytes, v': Bytes)
    requires AllTokens(n) && AllTokens(n')
    requires FieldLine(n, v) == FieldLine(n', v')
    ensures n == n' && v == v'
  {
    hide IsToken;
    TokensClean(n);
    TokensClean(n');
    var line := FieldLine(n, v);
    assert line[..|n|] == n && line[|n|] == COLON && line[|n| + 2..] == v;
    assert line[..|n'|] == n' && line[|n'|] == COLON && line[|n'| + 2..] == v';
    FirstAfter(line, |n|, COLON);
    FirstAfter(line, |n'|, COLON);
  }

  lemma CallerHeaderInjective(h: Header, h': Header, limits: Limits, limits': Limits)
    requires HeaderFault(h, limits).None? && HeaderFault(h', limits').None?
    requires FieldLine(Lower(h.name), h.value) == FieldLine(Lower(h'.name), h'.value)
    ensures Lower(h.name) == Lower(h'.name) && h.value == h'.value
  {
    hide IsToken, MANAGED_HEADERS, SENSITIVE_HEADERS, FieldLine;
    LowerKeepsTokens(h.name);
    LowerKeepsTokens(h'.name);
    FieldLineInjective(Lower(h.name), h.value, Lower(h'.name), h'.value);
  }

  /** Two accepted requests with the same wire differ at most in the letter case of header names. */
  lemma WireInjective(a: Request, b: Request, x: Bytes, y: Bytes, limits: Limits, limits': Limits)
    requires Fault(a, x, limits).None? && Fault(b, y, limits').None?
    requires Wire(a, x) == Wire(b, y)
    ensures x == y && a.requestMethod == b.requestMethod && a.target == b.target && a.body == b.body
    ensures |a.headers| == |b.headers|
    ensures forall i :: 0 <= i < |a.headers| ==>
              Lower(a.headers[i].name) == Lower(b.headers[i].name) && a.headers[i].value == b.headers[i].value
  {
    SameLines(a, b, x, y, limits, limits');
    hide Wire, Terminated, RequestLine, FieldLine, HeaderFault, Decimal;
    var p, q := HeadLines(a, x), HeadLines(b, y);
    assert p[0] == RequestLine(a) && q[0] == RequestLine(b);
    assert p[1] == FieldLine(HOST, x) && q[1] == FieldLine(HOST, y);
    RequestLineInjective(a, b);
    ManagedNames();
    FieldLineInjective(HOST, x, HOST, y);
    forall i | 0 <= i < |a.headers|
      ensures Lower(a.headers[i].name) == Lower(b.headers[i].name) && a.headers[i].value == b.headers[i].value
    {
      assert p[i + 2] == CallerLines(a.headers)[i];
      assert q[i + 2] == CallerLines(b.headers)[i];
      CallerHeaderInjective(a.headers[i], b.headers[i], limits, limits');
    }
  }

  lemma SameLines(a: Request, b: Request, x: Bytes, y: Bytes, limits: Limits, limits': Limits)
    requires Fault(a, x, limits).None? && Fault(b, y, limits').None?
    requires Wire(a, x) == Wire(b, y)
    ensures HeadLines(a, x) == HeadLines(b, y) && a.body == b.body
  {
    hide Wire, Fault, HeadLines, SplitCrlf;
    WireSplitsBack(a, x, limits);
    WireSplitsBack(b, y, limits');
  }

  // -------------------------------------------------------------- the serializer

  datatype Serialized = Serialized(wire: Bytes, auditWire: Bytes, headerCount: nat)

  method AppendHeader(output: Bytes, name: Bytes, value: Bytes, ghost lines: seq<Bytes>) returns (r: Bytes)
    requires output == Terminated(lines)
    ensures r == Terminated(lines + [FieldLine(name, value)])
  {
    r := output + name + COLON_SPACE + value + CRLF;
    TerminatedAppends(lines, FieldLine(name, value));
    assert r == output + FieldLine(name, value) + CRLF;
  }

  method AppendPrefix(request: Request, authority: Bytes) returns (r: Bytes)
    ensures r == Terminated(Preamble(request, authority))
  {
    r := request.requestMethod + [SPACE] + request.target + VERSION_SUFFIX + CRLF;
    TerminatedAppends([], RequestLine(request));
    assert [] + [RequestLine(request)] == [RequestLine(request)];
    assert r == [] + RequestLine(request) + CRLF;
    r := AppendHeader(r, HOST, authority, [RequestLine(request)]);
    assert [RequestLine(request)] + [FieldLine(HOST, authority)] == Preamble(request, authority);
  }

  /** Without a secret lease both buffers hold the printed request; a rejected request prints nothing. */
  method SerializeRequest(request: Request, authority: Bytes, limits: Limits) returns (r: Http1Result<Serialized>)
    ensures match Fault(request, authority, limits)
      case Some(fault) => r == Failure(InvalidRequest(fault))
      case None => r == Success(Serialized(Wire(request, authority), Wire(request, authority), |request.headers| + 3))
  {
    hide ValidMethod, ValidTarget, ValidAuthority, HeaderFault, RequestLine, FieldLine, Terminated, Decimal;
    if !ValidMethod(request.requestMethod) {
      return Failure(InvalidRequest(MethodInvalid));
    }
    if !ValidTarget(request.requestMethod, request.target) {
      return Failure(InvalidRequest(TargetInvalid));
    }
    if !ValidAuthority(authority) {
      return Failure(InvalidRequest(AuthorityMalformed));
    }
    if |request.body| > limits.maximumRequestBodyBytes {
      return Failure(InvalidRequest(BodyTooLarge));
    }
    var output := AppendPrefix(request, authority);
    var auditOutput := AppendPrefix(request, authority);
    ghost var lines := Preamble(request, authority);
    assert request.headers[0..] == request.headers;
    for i := 0 to |request.headers|
      invariant HeadersFault(request.headers, limits) == HeadersFault(request.headers[i..], limits)
      invariant lines == Preamble(request, authority) + CallerLines(request.headers)[..i]
      invariant output == auditOutput == Terminated(lines)
    {
      var header := request.headers[i];
      assert request.headers[i..][1..] == request.headers[i + 1..];
      var fault := HeaderFault(header, limits);
      if fault.Some? {
        return Failure(InvalidRequest(fault.value));
      }
      output := AppendHeader(output, Lower(header.name), header.value, lines);
      auditOutput := AppendHeader(auditOutput, Lower(header.name), header.value, lines);
      lines := lines + [FieldLine(Lower(header.name), header.value)];
    }
    if |request.headers| + 3 > limits.maximumHeaderCount {
      return Failure(InvalidRequest(RequestHeaderCount));
    }
    var length := Decimal(|request.body|);
    output := AppendHeader(output, CONTENT_LENGTH_FIELD, length, lines);
    auditOutput := AppendHeader(auditOutput, CONTENT_LENGTH_FIELD, length, lines);
    lines := lines + [FieldLine(CONTENT_LENGTH_FIELD, length)];
    output := AppendHeader(output, CONNECTION, CLOSE, lines);
    auditOutput := AppendHeader(auditOutput, CONNECTION, CLOSE, lines);
    lines := lines + [FieldLine(CONNECTION, CLOSE)];
    assert lines == HeadLines(request, authority);
    output, auditOutput := output + CRLF, auditOutput + CRLF;
    if |output| > limits.maximumRequestHeaderBytes {
      return Failure(InvalidRequest(RequestHeaderBlockTooLarge));
    }
    output, auditOutput := output + request.body, auditOutput + request.body;
    r := Success(Serialized(output, auditOutput, |request.headers| + 3));
  }
}
