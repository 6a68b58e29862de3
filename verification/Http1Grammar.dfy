/** The response parser decides a grammar: which octets are read as which response. */
module Http1Grammar {
  import opened Wrappers
  import opened Bytes
  import opened Http1Lines
  import opened Http1Model
  import opened Http1Head
  import opened Http1Chunked
  import opened Http1Response

  // -------------------------------------------------------------------- status lines

  function VersionText(v: Version): Bytes {
    match v
    case Http10 => Ascii("HTTP/1.0")
    case Http11 => Ascii("HTTP/1.1")
  }

  function ThreeDigits(code: nat): (b: Bytes)
    requires code <= 999
    ensures |b| == 3 && AllDigits(b)
  {
    [(48 + code / 100) as u8, (48 + code / 10 % 10) as u8, (48 + code % 10) as u8]
  }

  /** Version, space, three digits, and a reason after another space; an empty reason may lose its space. */
  predicate StatusText(line: Bytes, s: StatusLine) {
    && 100 <= s.statusCode <= 999
    && VisibleText(s.reason) && TAB !in s.reason
    && var start := VersionText(s.version) + [SPACE] + ThreeDigits(s.statusCode);
       line == start + [SPACE] + s.reason || (s.reason == [] && line == start)
  }

  lemma VersionTextExact(b: Bytes, v: Version)
    ensures ParseVersion(b) == Some(v) <==> b == VersionText(v)
    ensures SPACE !in VersionText(v) && TAB !in VersionText(v)
  {
    assert Ascii("HTTP/1.0")[7] != Ascii("HTTP/1.1")[7];
  }

  lemma ThreeDigitsExact(b: Bytes, code: nat)
    requires |b| == 3 && AllDigits(b) && code <= 999
    ensures (b[0] as int - 48) * 100 + (b[1] as int - 48) * 10 + (b[2] as int - 48) == code <==> b == ThreeDigits(code)
  {
    assert IsDigit(b[0]) && IsDigit(b[1]) && IsDigit(b[2]);
    var t := ThreeDigits(code);
    var x, y, z := b[0] as int - 48, b[1] as int - 48, b[2] as int - 48;
    if x * 100 + y * 10 + z == code {
      DigitsOf(x, y, z);
      assert b[0] == t[0] && b[1] == t[1] && b[2] == t[2];
    }
  }

  lemma DigitsOf(x: nat, y: nat, z: nat)
    requires x < 10 && y < 10 && z < 10
    ensures var code := x * 100 + y * 10 + z; code / 100 == x && code / 10 % 10 == y && code % 10 == z
  {
    var code := x * 100 + y * 10 + z;
    assert code / 10 == 10 * x + y;
  }

  lemma StatusCodeExact(version: Version, rest: Bytes, s: StatusLine)
    ensures ParseStatusCode(version, rest) == Success(s)
       <==> && s.version == version && 100 <= s.statusCode <= 999 && VisibleText(s.reason)
            && (|| rest == ThreeDigits(s.statusCode) + [SPACE] + s.reason
                || (s.reason == [] && rest == ThreeDigits(s.statusCode)))
  {
    hide ThreeDigits, VisibleText;
    if |rest| >= 3 && AllDigits(rest[..3]) && s.statusCode <= 999 {
      ThreeDigitsExact(rest[..3], s.statusCode);
      assert rest == rest[..3] + rest[3..];
      if |rest| > 3 {
        assert rest[3..] == [rest[3]] + rest[4..];
      }
    }
    if s.statusCode <= 999 && rest == ThreeDigits(s.statusCode) + [SPACE] + s.reason {
      assert rest[..3] == ThreeDigits(s.statusCode) && rest[4..] == s.reason && rest[3] == SPACE;
    }
    if s.statusCode <= 999 && rest == ThreeDigits(s.statusCode) {
      assert rest[..3] == rest;
    }
  }

  /** A status line is read exactly when it is a version, a code and a reason as written above. */
  lemma StatusLineExact(line: Bytes, s: StatusLine)
    ensures ParseStatusLine(line) == Success(s) <==> StatusText(line, s)
  {
    hide ParseStatusCode, ThreeDigits, VersionText, ParseVersion, VisibleText;
    if ParseStatusLine(line) == Success(s) {
      var k := FindByte(line, SPACE).value;
      StatusCodeExact(ParseVersion(line[..k]).value, line[k + 1..], s);
      VersionTextExact(line[..k], s.version);
      assert line == line[..k] + [SPACE] + line[k + 1..];
      StatusTextFromParts(line, s, line[k + 1..]);
    }
    if StatusText(line, s) {
      StatusTextParts(line, s);
    }
  }

  lemma StatusTextFromParts(line: Bytes, s: StatusLine, rest: Bytes)
    requires TAB !in line && line == VersionText(s.version) + [SPACE] + rest
    requires 100 <= s.statusCode <= 999 && VisibleText(s.reason)
    requires || rest == ThreeDigits(s.statusCode) + [SPACE] + s.reason
             || (s.reason == [] && rest == ThreeDigits(s.statusCode))
    ensures StatusText(line, s)
  {
    hide ThreeDigits, VersionText, VisibleText;
    var start := VersionText(s.version) + [SPACE] + ThreeDigits(s.statusCode);
    if rest == ThreeDigits(s.statusCode) + [SPACE] + s.reason {
      assert line == start + [SPACE] + s.reason;
      assert forall i :: 0 <= i < |s.reason| ==> s.reason[i] == line[|start| + 1 + i];
    } else {
      assert line == start;
    }
  }

  lemma StatusTextParts(line: Bytes, s: StatusLine)
    requires StatusText(line, s)
    ensures ParseStatusLine(line) == Success(s)
  {
    hide ParseStatusCode, ThreeDigits, VersionText, ParseVersion, VisibleText;
    var v, d := VersionText(s.version), ThreeDigits(s.statusCode);
    VersionTextExact(v, s.version);
    var rest := if line == v + [SPACE] + d + [SPACE] + s.reason then d + [SPACE] + s.reason else d;
    assert line == v + [SPACE] + rest;
    FirstSeparator(v, rest, SPACE);
    assert line[..|v|] == v && line[|v| + 1..] == rest;
    assert forall i :: 0 <= i < |d| ==> IsDigit(d[i]);
    assert TAB !in d && TAB !in rest && TAB !in line;
    StatusCodeExact(s.version, rest, s);
  }

  // -------------------------------------------------------------------- header lines

  /** Name, colon, optional white space, value, optional white space. */
  predicate FieldText(line: Bytes, name: Bytes, lead: Bytes, trail: Bytes, h: Header, limits: Limits, trailers: bool) {
    && line == name + [COLON] + (lead + h.value + trail)
    && name != [] && |name| <= limits.maximumHeaderNameBytes && AllTokens(name) && Lower(name) == h.name
    && !(trailers && h.name in PROHIBITED_TRAILERS)
    && AllOws(lead) && AllOws(trail)
    && Trimmed(h.value) && |h.value| <= limits.maximumHeaderValueBytes && VisibleText(h.value)
  }

  lemma TokenNames(name: Bytes)
    requires AllTokens(name)
    ensures COLON !in name && (name != [] ==> !IsOws(name[0]))
  {
    assert forall i :: 0 <= i < |name| ==> IsToken(name[i]);
  }

  lemma FieldTextParses(line: Bytes, name: Bytes, lead: Bytes, trail: Bytes, h: Header, limits: Limits, trailers: bool)
    requires FieldText(line, name, lead, trail, h, limits, trailers)
    ensures ParseHeaderLine(line, limits, trailers) == Success(h)
  {
    hide AllTokens, VisibleText, TrimOws, PROHIBITED_TRAILERS, Trimmed, AllOws;
    var rest := lead + h.value + trail;
    TokenNames(name);
    FirstSeparator(name, rest, COLON);
    assert line[0] == name[0] && line[..|name|] == name && line[|name| + 1..] == rest;
    TrimOwsUnique(lead, h.value, trail);
  }

  lemma ParsedFieldText(line: Bytes, h: Header, limits: Limits, trailers: bool) returns (name: Bytes, lead: Bytes,
      trail: Bytes)
    requires ParseHeaderLine(line, limits, trailers) == Success(h)
    ensures FieldText(line, name, lead, trail, h, limits, trailers)
  {
    hide AllTokens, VisibleText, TrimOws, PROHIBITED_TRAILERS, Trimmed, AllOws;
    var k := FindByte(line, COLON).value;
    name := line[..k];
    lead, trail := TrimOwsSplits(line[k + 1..]);
    assert line == name + [COLON] + line[k + 1..];
  }

  /** A header line is read exactly when it is a name, a colon and a value inside white space. */
  lemma HeaderLineExact(line: Bytes, h: Header, limits: Limits, trailers: bool)
    ensures ParseHeaderLine(line, limits, trailers) == Success(h)
       <==> exists name, lead, trail :: FieldText(line, name, lead, trail, h, limits, trailers)
  {
    hide FieldText, ParseHeaderLine;
    if ParseHeaderLine(line, limits, trailers) == Success(h) {
      var name, lead, trail := ParsedFieldText(line, h, limits, trailers);
    }
    forall name, lead, trail | FieldText(line, name, lead, trail, h, limits, trailers)
      ensures ParseHeaderLine(line, limits, trailers) == Success(h)
    {
      FieldTextParses(line, name, lead, trail, h, limits, trailers);
    }
  }

  // --------------------------------------------------------------------------- heads

  function HeadBlock(lines: seq<Bytes>): Bytes
    requires |lines| > 0
  {
    JoinCrlf(lines) + CRLF + CRLF
  }

  /** Lines, free of CR and LF and within the limits, that say what head says. */
  ghost predicate HeadText(lines: seq<Bytes>, head: Head, limits: Limits) {
    && |lines| == |head.headers| + 1 && AllClean(lines)
    && |HeadBlock(lines)| <= limits.maximumResponseHeaderBytes
    && |head.headers| <= limits.maximumHeaderCount
    && StatusText(lines[0], head.status)
    && forall i :: 0 <= i < |head.headers| ==> HeaderText(lines[i + 1], head.headers[i], limits)
  }

  ghost predicate HeaderText(line: Bytes, h: Header, limits: Limits) {
    exists name, lead, trail :: FieldText(line, name, lead, trail, h, limits, false)
  }

  lemma HeadTextParses(lines: seq<Bytes>, head: Head, limits: Limits)
    requires |lines| > 0
    ensures (&& AllClean(lines) && |HeadBlock(lines)| <= limits.maximumResponseHeaderBytes
             && ParseStatusLine(lines[0]) == Success(head.status)
             && ParseHeaderLines(lines[1..], limits, false) == Success(head.headers))
       <==> HeadText(lines, head, limits)
  {
    hide ParseStatusLine, StatusText, ParseHeaderLine, FieldText, AllClean, HeadBlock;
    StatusLineExact(lines[0], head.status);
    if |lines| == |head.headers| + 1 {
      forall i | 0 <= i < |head.headers|
        ensures lines[1..][i] == lines[i + 1]
        ensures ParseHeaderLine(lines[1..][i], limits, false) == Success(head.headers[i])
           <==> HeaderText(lines[i + 1], head.headers[i], limits)
      {
        HeaderLineExact(lines[i + 1], head.headers[i], limits, false);
      }
    }
    if HeadText(lines, head, limits) {
      EachLineParses(lines[1..], head.headers, limits, false);
    }
  }

  lemma HeadTextNonEmpty(lines: seq<Bytes>, head: Head, limits: Limits)
    requires HeadText(lines, head, limits)
    ensures NoneEmpty(lines)
  {
    hide AllClean, HeadBlock, VersionText, ThreeDigits;
    forall i | 0 <= i < |lines|
      ensures lines[i] != []
    {
      if i > 0 {
        assert HeaderText(lines[i], head.headers[i - 1], limits);
      }
    }
  }

  lemma HeadBlockParses(lines: seq<Bytes>, head: Head, limits: Limits)
    requires HeadText(lines, head, limits)
    ensures ParseHead(HeadBlock(lines), limits) == Success(head)
  {
    hide ParseStatusLine, ParseHeaderLines, HeadText, JoinCrlf, SplitCrlf;
    HeadTextParts(lines, head, limits);
    HeadTextParses(lines, head, limits);
    var block := HeadBlock(lines);
    JoinedBlockIsPaired(lines);
    SplitOfJoin(lines);
    assert block[..|block| - 4] == JoinCrlf(lines);
  }

  lemma HeadTextParts(lines: seq<Bytes>, head: Head, limits: Limits)
    requires HeadText(lines, head, limits)
    ensures |lines| > 0 && AllClean(lines) && |HeadBlock(lines)| <= limits.maximumResponseHeaderBytes
  {
  }

  lemma ParsedHeadBlock(block: Bytes, head: Head, limits: Limits) returns (lines: seq<Bytes>)
    requires 4 <= |block| <= limits.maximumResponseHeaderBytes && DoubleCrlfAt(block, |block| - 4)
    requires ParseHead(block, limits) == Success(head)
    ensures |lines| > 0 && HeadText(lines, head, limits) && HeadBlock(lines) == block
  {
    hide ParseStatusLine, ParseHeaderLines, HeadText, JoinCrlf, SplitCrlf;
    var content := block[..|block| - 4];
    lines := SplitCrlf(content);
    PairedBlockContent(block);
    SplitOfPairedIsClean(content);
    JoinOfSplit(content);
    assert block == content + CRLF + CRLF;
    HeadTextParses(lines, head, limits);
  }

  predicate IsInterim(head: Head) {
    100 <= head.status.statusCode < 200
  }

  /** A head at the front of the buffer is read as what its lines say. */
  lemma NextIsHead(lines: seq<Bytes>, head: Head, s: Bytes, eof: bool, limits: Limits)
    requires HeadText(lines, head, limits) && head.status.statusCode != 101
    ensures var n := |HeadBlock(lines)|;
      NextHead(HeadBlock(lines) + s, eof, limits) == if IsInterim(head) then Interim(n) else Final(head, n)
  {
    hide HeadText, ParseHead, JoinCrlf;
    HeadTextParts(lines, head, limits);
    HeadTextNonEmpty(lines, head, limits);
    BlockEndsAtDoubleCrlf(lines, s);
    HeadBlockParses(lines, head, limits);
    var block := HeadBlock(lines);
    assert block + s == JoinCrlf(lines) + CRLF + CRLF + s;
    assert (block + s)[..|block|] == block;
  }

  /** Whatever is read as a head is the text of one. */
  lemma HeadWasRead(b: Bytes, eof: bool, limits: Limits) returns (lines: seq<Bytes>, head: Head)
    requires !NextHead(b, eof, limits).Halt?
    ensures |lines| > 0 && HeadText(lines, head, limits) && head.status.statusCode != 101
    ensures HeadBlock(lines) == b[..NextHead(b, eof, limits).octets]
    ensures var n := |HeadBlock(lines)|;
      NextHead(b, eof, limits) == if IsInterim(head) then Interim(n) else Final(head, n)
  {
    hide HeadText, ParseHead, HeadBlock;
    var end := FindDoubleCrlf(b).value;
    var block := b[..end];
    assert DoubleCrlfAt(block, end - 4);
    head := ParseHead(block, limits).value;
    lines := ParsedHeadBlock(block, head, limits);
  }

  // -------------------------------------------------------------------------- bodies

  /** The octets that carry body and trailers under the framing. */
  ghost predicate BodyText(payload: Bytes, framing: Framing, body: Bytes, trailers: seq<Header>, limits: Limits) {
    match framing
    case NoBody => payload == body == [] && trailers == []
    case ContentLength(n) => payload == body && |body| == n <= limits.maximumResponseBodyBytes && trailers == []
    case Chunked => exists cs, e :: CodingText(payload, cs, e, body, trailers, limits)
    case ConnectionClose => payload == body && |body| <= limits.maximumResponseBodyBytes && trailers == []
  }

  ghost predicate CodingText(payload: Bytes, cs: seq<Chunk>, e: Ending, body: Bytes, trailers: seq<Header>,
                             limits: Limits) {
    && ValidCoding(cs, e, limits, 0, 0)
    && payload == Encode(cs, e) && body == Payload(cs) && trailers == Trailers(e, limits)
  }

  /** A body is framed exactly when its text begins the buffer; one closed by the connection is all of it. */
  lemma BodyExact(framing: Framing, b: Bytes, eof: bool, limits: Limits, body: Bytes, trailers: seq<Header>, n: nat)
    ensures ParseBody(framing, b, eof, limits) == Success(Framed(body, trailers, n))
       <==> && n <= |b| && BodyText(b[..n], framing, body, trailers, limits)
            && (framing.ConnectionClose? ==> eof && n == |b|)
  {
    hide Chunks;
    match framing
    case NoBody =>
    case ContentLength(m) =>
    case Chunked => ChunkedBodyExact(b, eof, limits, body, trailers, n);
    case ConnectionClose =>
      if n == |b| {
        assert b[..n] == b;
      }
  }

  lemma ChunkedBodyExact(b: Bytes, eof: bool, limits: Limits, body: Bytes, trailers: seq<Header>, n: nat)
    ensures Chunks(b, eof, limits, 0, 0) == Success(Framed(body, trailers, n))
       <==> n <= |b| && BodyText(b[..n], Chunked, body, trailers, limits)
  {
    hide Chunks, Encode, ValidCoding, Payload, Trailers;
    var f := Framed(body, trailers, n);
    ChunkedDecidesGrammar(b, eof, limits, f);
    forall cs, e | IsCodingOf(b, cs, e, limits, f)
      ensures n <= |b| && BodyText(b[..n], Chunked, body, trailers, limits)
    {
      assert CodingText(b[..n], cs, e, body, trailers, limits);
    }
    if n <= |b| && BodyText(b[..n], Chunked, body, trailers, limits) {
      var cs, e :| CodingText(b[..n], cs, e, body, trailers, limits);
      assert IsCodingOf(b, cs, e, limits, f);
    }
  }

  // ----------------------------------------------------------------------- responses

  /** A response as written: interim heads, the final head, and the octets of the body. */
  datatype Message = Message(interims: seq<seq<Bytes>>, lines: seq<Bytes>, payload: Bytes)

  ghost predicate InterimText(lines: seq<Bytes>, limits: Limits) {
    exists head :: HeadText(lines, head, limits) && IsInterim(head) && head.status.statusCode != 101
  }

  function HeadBlocks(interims: seq<seq<Bytes>>): Bytes
    requires forall i :: 0 <= i < |interims| ==> |interims[i]| > 0
  {
    if interims == [] then [] else HeadBlock(interims[0]) + HeadBlocks(interims[1..])
  }

  function Written(m: Message): Bytes
    requires |m.lines| > 0 && forall i :: 0 <= i < |m.interims| ==> |m.interims[i]| > 0
  {
    HeadBlocks(m.interims) + (HeadBlock(m.lines) + m.payload)
  }

  ghost predicate FinalText(lines: seq<Bytes>, payload: Bytes, r: Response, requestMethod: Bytes, limits: Limits) {
    && HeadText(lines, Head(StatusLine(r.version, r.statusCode, r.reason), r.headers), limits)
    && !(100 <= r.statusCode < 200)
    && FramingJustified(r.framing, requestMethod, r.version, r.statusCode, r.headers)
    && BodyText(payload, r.framing, r.body, r.trailers, limits)
  }

  /** m writes r, when interim interim responses came before. */
  ghost predicate Writes(m: Message, r: Response, requestMethod: Bytes, limits: Limits, interim: nat) {
    && |m.lines| > 0
    && (forall i :: 0 <= i < |m.interims| ==> |m.interims[i]| > 0 && InterimText(m.interims[i], limits))
    && r.interimResponses == interim + |m.interims|
    && (m.interims != [] ==> interim + |m.interims| <= limits.maximumInterimResponses)
    && FinalText(m.lines, m.payload, r, requestMethod, limits)
  }

  /** The first n octets of b are m, which writes r; the end of the stream closes what the connection delimits. */
  ghost predicate Reads(b: Bytes, eof: bool, m: Message, r: Response, n: nat, requestMethod: Bytes, limits: Limits,
                        interim: nat) {
    && Writes(m, r, requestMethod, limits, interim)
    && n <= |b| && b[..n] == Written(m)
    && (r.framing.ConnectionClose? ==> eof && n == |b|)
  }

  lemma FinalExact(head: Head, b: Bytes, eof: bool, requestMethod: Bytes, limits: Limits, interim: nat, r: Response,
                   n: nat)
    ensures FinalResponse(head, b, eof, requestMethod, limits, interim) == Success(Progress.Complete(r, n))
       <==> && head == Head(StatusLine(r.version, r.statusCode, r.reason), r.headers) && r.interimResponses == interim
            && FramingJustified(r.framing, requestMethod, r.version, r.statusCode, r.headers)
            && n <= |b| && BodyText(b[..n], r.framing, r.body, r.trailers, limits)
            && (r.framing.ConnectionClose? ==> eof && n == |b|)
  {
    hide ParseBody, DetermineFraming, FramingJustified, BodyText;
    FramingExact(r.framing, requestMethod, head.status.version, head.status.statusCode, head.headers);
    BodyExact(r.framing, b, eof, limits, r.body, r.trailers, n);
  }

  lemma FinalIsRead(b: Bytes, eof: bool, m: Message, r: Response, n: nat, requestMethod: Bytes, limits: Limits,
                    interim: nat)
    requires Reads(b, eof, m, r, n, requestMethod, limits, interim) && m.interims == []
    ensures Parse(b, eof, requestMethod, limits, interim) == Success(Progress.Complete(r, n))
  {
    hide HeadText, FramingJustified, BodyText, NextHead, FinalResponse, HeadBlock;
    var head := Head(StatusLine(r.version, r.statusCode, r.reason), r.headers);
    var k := |HeadBlock(m.lines)|;
    assert Written(m) == HeadBlock(m.lines) + m.payload;
    assert b == HeadBlock(m.lines) + b[k..] && b[k..][..n - k] == m.payload;
    NextIsHead(m.lines, head, b[k..], eof, limits);
    FinalExact(head, b[k..], eof, requestMethod, limits, interim, r, n - k);
  }

  function Tail(m: Message): Message
    requires m.interims != []
  {
    m.(interims := m.interims[1..])
  }

  /** Every written response is read as what it writes, and no further. */
  lemma {:induction false} WrittenIsRead(b: Bytes, eof: bool, m: Message, r: Response, n: nat, requestMethod: Bytes,
                                         limits: Limits, interim: nat)
    requires Reads(b, eof, m, r, n, requestMethod, limits, interim)
    ensures Parse(b, eof, requestMethod, limits, interim) == Success(Progress.Complete(r, n))
    decreases |m.interims|
  {
    hide HeadText, FinalText, NextHead, FinalResponse, HeadBlock;
    if m.interims == [] {
      FinalIsRead(b, eof, m, r, n, requestMethod, limits, interim);
    } else {
      var lines := m.interims[0];
      var head :| HeadText(lines, head, limits) && IsInterim(head) && head.status.statusCode != 101;
      var k := |HeadBlock(lines)|;
      assert Written(m) == HeadBlock(lines) + Written(Tail(m));
      assert b == HeadBlock(lines) + b[k..] && b[k..][..n - k] == Written(Tail(m));
      NextIsHead(lines, head, b[k..], eof, limits);
      SomethingWritten(Tail(m));
      WrittenIsRead(b[k..], eof, Tail(m), r, n - k, requestMethod, limits, interim + 1);
    }
  }

  lemma SomethingWritten(m: Message)
    requires |m.lines| > 0 && forall i :: 0 <= i < |m.interims| ==> |m.interims[i]| > 0
    ensures |Written(m)| > 0
  {
  }

  lemma FinalWasWritten(b: Bytes, eof: bool, requestMethod: Bytes, limits: Limits, interim: nat, r: Response,
                        n: nat) returns (m: Message)
    requires Parse(b, eof, requestMethod, limits, interim) == Success(Progress.Complete(r, n))
    requires NextHead(b, eof, limits).Final?
    ensures Reads(b, eof, m, r, n, requestMethod, limits, interim)
  {
    hide HeadText, FramingJustified, BodyText, NextHead, FinalResponse, HeadBlock;
    var lines, head := HeadWasRead(b, eof, limits);
    var k := |HeadBlock(lines)|;
    FinalExact(head, b[k..], eof, requestMethod, limits, interim, r, n - k);
    m := Message([], lines, b[k..][..n - k]);
    assert b[..n] == b[..k] + b[k..][..n - k];
    assert Written(m) == HeadBlock(lines) + m.payload;
  }

  /** Whatever is read was written: the heads and the payload can be produced from the octets. */
  lemma {:induction false} ReadWasWritten(b: Bytes, eof: bool, requestMethod: Bytes, limits: Limits, interim: nat,
                                          r: Response, n: nat)
    returns (m: Message)
    requires Parse(b, eof, requestMethod, limits, interim) == Success(Progress.Complete(r, n))
    ensures Reads(b, eof, m, r, n, requestMethod, limits, interim)
    decreases |b|
  {
    hide HeadText, FinalText, NextHead, FinalResponse, HeadBlock;
    if NextHead(b, eof, limits).Final? {
      m := FinalWasWritten(b, eof, requestMethod, limits, interim, r, n);
    } else {
      var lines, head := HeadWasRead(b, eof, limits);
      var k := |HeadBlock(lines)|;
      var rest := ReadWasWritten(b[k..], eof, requestMethod, limits, interim + 1, r, n - k);
      m := rest.(interims := [lines] + rest.interims);
      Preceded(lines, head, rest, m, limits);
      assert b[..n] == b[..k] + b[k..][..n - k];
    }
  }

  lemma Preceded(lines: seq<Bytes>, head: Head, rest: Message, m: Message, limits: Limits)
    requires HeadText(lines, head, limits) && IsInterim(head) && head.status.statusCode != 101
    requires |rest.lines| > 0
    requires forall i :: 0 <= i < |rest.interims| ==> |rest.interims[i]| > 0 && InterimText(rest.interims[i], limits)
    requires m == rest.(interims := [lines] + rest.interims)
    ensures forall i :: 0 <= i < |m.interims| ==> |m.interims[i]| > 0 && InterimText(m.interims[i], limits)
    ensures Written(m) == HeadBlock(lines) + Written(rest)
  {
    hide HeadText, HeadBlock;
    HeadTextParts(lines, head, limits);
    assert InterimText(lines, limits);
    assert m.interims[1..] == rest.interims;
  }

  /** The parser completes exactly on written responses, and returns what was written. */
  lemma ResponseDecidesGrammar(b: Bytes, eof: bool, requestMethod: Bytes, limits: Limits, r: Response, n: nat)
    ensures Parse(b, eof, requestMethod, limits, 0) == Success(Progress.Complete(r, n))
       <==> exists m :: Reads(b, eof, m, r, n, requestMethod, limits, 0)
  {
    hide Parse, Reads;
    if Parse(b, eof, requestMethod, limits, 0) == Success(Progress.Complete(r, n)) {
      var m := ReadWasWritten(b, eof, requestMethod, limits, 0, r, n);
    }
    forall m | Reads(b, eof, m, r, n, requestMethod, limits, 0)
      ensures Parse(b, eof, requestMethod, limits, 0) == Success(Progress.Complete(r, n))
    {
      WrittenIsRead(b, eof, m, r, n, requestMethod, limits, 0);
    }
  }

  /** The grammar is unambiguous: no buffer begins with the writings of two responses. */
  lemma GrammarUnambiguous(b: Bytes, eof: bool, requestMethod: Bytes, limits: Limits,
                           m: Message, r: Response, n: nat, m': Message, r': Response, n': nat)
    requires Reads(b, eof, m, r, n, requestMethod, limits, 0) && Reads(b, eof, m', r', n', requestMethod, limits, 0)
    ensures r == r' && n == n'
  {
    hide Parse, Reads;
    WrittenIsRead(b, eof, m, r, n, requestMethod, limits, 0);
    WrittenIsRead(b, eof, m', r', n', requestMethod, limits, 0);
  }

  // ------------------------------------------------------------------------- an example

  const NO_CONTENT: Bytes := Ascii("HTTP/1.1 204 No Content")

  /** A head without headers, for a status that has no body, is a whole response. */
  lemma NoContentCompletes(requestMethod: Bytes)
    ensures Parse(NO_CONTENT + CRLF + CRLF, false, requestMethod, DEFAULT_LIMITS, 0)
         == Success(Progress.Complete(Response(Http11, 204, Ascii("No Content"), [], [], [], NoBody, 0),
                                      |NO_CONTENT| + 4))
  {
    hide Parse;
    var r := Response(Http11, 204, Ascii("No Content"), [], [], [], NoBody, 0);
    var m := Message([], [NO_CONTENT], []);
    var b := NO_CONTENT + CRLF + CRLF;
    NoContentText();
    assert Written(m) == b && b[..|b|] == b;
    WrittenIsRead(b, false, m, r, |b|, requestMethod, DEFAULT_LIMITS, 0);
  }

  lemma NoContentText()
    ensures HeadText([NO_CONTENT], Head(StatusLine(Http11, 204, Ascii("No Content")), []), DEFAULT_LIMITS)
  {
    hide StatusText;
    var s := StatusLine(Http11, 204, Ascii("No Content"));
    NoContentStatus();
    assert forall i :: 0 <= i < |NO_CONTENT| ==> NO_CONTENT[i] >= 32;
  }

  lemma NoContentStatus()
    ensures StatusText(NO_CONTENT, StatusLine(Http11, 204, Ascii("No Content")))
  {
    var reason := Ascii("No Content");
    assert NO_CONTENT == VersionText(Http11) + [SPACE] + ThreeDigits(204) + [SPACE] + reason;
    assert forall i :: 0 <= i < |reason| ==> 32 <= reason[i] < 127;
  }
}
