/** The incremental response parser: verdicts, their stability, and what a complete response guarantees. */
module Http1Response {
  import opened Wrappers
  import opened Bytes
  import opened Http1Lines
  import opened Http1Model
  import opened Http1Head
  import opened Http1Chunked

  // ------------------------------------------------------------------ the body

  function ParseBody(framing: Framing, b: Bytes, eof: bool, limits: Limits): Http1Result<BodyProgress> {
    match framing
    case NoBody => Success(Framed([], [], 0))
    case ContentLength(n) =>
      if n > limits.maximumResponseBodyBytes then Failure(InvalidResponse(ContentLengthTooLarge))
      else if |b| < n then Starved(eof, InBody)
      else Success(Framed(b[..n], [], n))
    case Chunked => Chunks(b, eof, limits, 0, 0)
    case ConnectionClose =>
      if !eof then Success(Pending)
      else if |b| > limits.maximumResponseBodyBytes then Failure(InvalidResponse(CloseBodyTooLarge))
      else Success(Framed(b, [], |b|))
  }

  // -------------------------------------------------------------- whole message

  function FinishResponse(head: Head, framing: Framing, interim: nat, body: Http1Result<BodyProgress>)
    : Http1Result<Progress>
  {
    match body
    case Failure(error) => Failure(error)
    case Success(Pending) => Success(Incomplete)
    case Success(Framed(octets, trailers, consumed)) =>
      Success(Complete(
        Response(head.status.version, head.status.statusCode, head.status.reason, head.headers, trailers, octets,
                 framing, interim),
        consumed))
  }

  /** The final response whose head has been read and whose body begins b. */
  function FinalResponse(head: Head, b: Bytes, eof: bool, requestMethod: Bytes, limits: Limits, interim: nat)
    : Http1Result<Progress>
  {
    var framing :- DetermineFraming(requestMethod, head.status.version, head.status.statusCode, head.headers);
    FinishResponse(head, framing, interim, ParseBody(framing, b, eof, limits))
  }

  /** A result for the octets after n, as a result for the whole. */
  function Advance(r: Http1Result<Progress>, n: nat): Http1Result<Progress> {
    match r
    case Success(Complete(response, consumed)) => Success(Complete(response, n + consumed))
    case _ => r
  }

  /** What the front of the buffer holds: no whole head yet, an interim head, or the final head. */
  datatype HeadStep =
    | Halt(result: Http1Result<Progress>)
    | Interim(octets: nat)
    | Final(head: Head, octets: nat)

  function NextHead(b: Bytes, eof: bool, limits: Limits): (r: HeadStep)
    ensures r.Interim? ==> 0 < r.octets <= |b|
    ensures r.Final? ==> 0 < r.octets <= |b|
    ensures r.Halt? ==> (r.result.Success? ==> r.result == Success(Incomplete)) && (eof ==> r.result.Failure?)
    ensures r.Halt? ==> !eof && r.result.Failure? ==> r.result.error.InvalidResponse?
  {
    match FindDoubleCrlf(b)
    case None =>
      Halt(if |b| > limits.maximumResponseHeaderBytes then Failure(InvalidResponse(HeaderBlockTooLarge))
           else if eof then Failure(TruncatedResponse(InHeaderBlock))
           else Success(Incomplete))
    case Some(end) =>
      if end > limits.maximumResponseHeaderBytes then Halt(Failure(InvalidResponse(HeaderBlockTooLarge)))
      else HeadInBlock(b[..end], limits)
  }

  function HeadInBlock(block: Bytes, limits: Limits): (r: HeadStep)
    requires |block| >= 4
    ensures r.Halt? ==> r.result.Failure? && r.result.error.InvalidResponse?
    ensures r.Interim? ==> r.octets == |block|
    ensures r.Final? ==> r.octets == |block| && !(100 <= r.head.status.statusCode < 200)
    ensures r.Final? ==> |r.head.headers| <= limits.maximumHeaderCount
  {
    match ParseHead(block, limits)
    case Failure(error) => Halt(Failure(error))
    case Success(head) =>
      if 100 <= head.status.statusCode < 200 then
        if head.status.statusCode == 101 then Halt(Failure(InvalidResponse(UpgradeUnsupported)))
        else Interim(|block|)
      else Final(head, |block|)
  }

  /** The verdict on b, after interim interim responses. */
  function Parse(b: Bytes, eof: bool, requestMethod: Bytes, limits: Limits, interim: nat): Http1Result<Progress>
    decreases |b|
  {
    match NextHead(b, eof, limits)
    case Halt(r) => r
    case Interim(n) =>
      if interim + 1 > limits.maximumInterimResponses then Failure(InvalidResponse(TooManyInterimResponses))
      else if n == |b| then
        if eof then Failure(TruncatedResponse(AfterInterimResponse)) else Success(Incomplete)
      else Advance(Parse(b[n..], eof, requestMethod, limits, interim + 1), n)
    case Final(head, n) => Advance(FinalResponse(head, b[n..], eof, requestMethod, limits, interim), n)
  }

  predicate Completes(r: Http1Result<Progress>) {
    r.Success? && r.value.Complete?
  }

  // ------------------------------------------------------------------ stability

  lemma BodyStable(framing: Framing, b: Bytes, s: Bytes, eof: bool, limits: Limits)
    ensures var r, r' := ParseBody(framing, b, false, limits), ParseBody(framing, b + s, eof, limits);
      && (r.Success? && r.value.Framed? ==> r' == r && r.value.consumed <= |b|)
      && (r.Failure? ==> r.error.InvalidResponse? && r'.Failure? && r'.error.InvalidResponse?)
  {
    hide Chunks;
    match framing
    case NoBody =>
    case ContentLength(n) =>
      if n <= |b| {
        assert (b + s)[..n] == b[..n];
      }
    case Chunked =>
      var r := Chunks(b, false, limits, 0, 0);
      if r.Failure? {
        ErrorStable(b, s, eof, limits, 0, 0);
      } else if r.value.Framed? {
        FramedDependsOnPrefix(b, false, limits, 0, 0, b + s, eof);
        assert b[..r.value.consumed] <= b + s;
      }
    case ConnectionClose =>
  }

  lemma FinalStable(head: Head, b: Bytes, s: Bytes, eof: bool, requestMethod: Bytes, limits: Limits, interim: nat)
    ensures var r, r' := FinalResponse(head, b, false, requestMethod, limits, interim),
                         FinalResponse(head, b + s, eof, requestMethod, limits, interim);
      && (Completes(r) ==> r' == r && r.value.consumed <= |b|)
      && (r.Failure? ==> r.error.InvalidResponse? && r'.Failure? && r'.error.InvalidResponse?)
  {
    hide ParseBody, DetermineFraming;
    var framing := DetermineFraming(requestMethod, head.status.version, head.status.statusCode, head.headers);
    if framing.Success? {
      BodyStable(framing.value, b, s, eof, limits);
    }
  }

  lemma NextHeadExtends(b: Bytes, s: Bytes, eof: bool, limits: Limits)
    ensures var r, r' := NextHead(b, false, limits), NextHead(b + s, eof, limits);
      && (!r.Halt? ==> r' == r)
      && (r.Halt? && r.result.Failure? ==> r'.Halt? && r'.result.Failure? && r'.result.error.InvalidResponse?)
  {
    hide HeadInBlock;
    FindDoubleCrlfExtends(b, s);
    if FindDoubleCrlf(b).Some? {
      assert (b + s)[..FindDoubleCrlf(b).value] == b[..FindDoubleCrlf(b).value];
    }
  }

  /**
   * Verdicts are stable under extension: a response that completed before the end of the stream is
   * the response of every longer buffer, and a rejected buffer has no acceptable extension.
   */
  lemma {:induction false} VerdictStable(b: Bytes, s: Bytes, eof: bool, requestMethod: Bytes, limits: Limits,
                                         interim: nat)
    ensures var r, r' := Parse(b, false, requestMethod, limits, interim),
                         Parse(b + s, eof, requestMethod, limits, interim);
      && (Completes(r) ==> r' == r && r.value.consumed <= |b|)
      && (r.Failure? ==> r.error.InvalidResponse? && r'.Failure? && r'.error.InvalidResponse?)
    decreases |b|
  {
    hide NextHead, FinalResponse;
    NextHeadExtends(b, s, eof, limits);
    match NextHead(b, false, limits)
    case Halt(_) =>
    case Interim(n) =>
      assert (b + s)[n..] == b[n..] + s;
      if n < |b| && interim + 1 <= limits.maximumInterimResponses {
        VerdictStable(b[n..], s, eof, requestMethod, limits, interim + 1);
      }
    case Final(head, n) =>
      assert (b + s)[n..] == b[n..] + s;
      FinalStable(head, b[n..], s, eof, requestMethod, limits, interim);
  }

  // ------------------------------------------------------------------- locality

  lemma BodyLocal(framing: Framing, b: Bytes, eof: bool, limits: Limits)
    requires !framing.ConnectionClose?
    ensures var r := ParseBody(framing, b, eof, limits);
      r.Success? && r.value.Framed? ==>
        && r.value.consumed <= |b|
        && ParseBody(framing, b[..r.value.consumed], false, limits) == r
  {
    hide Chunks;
    var r := ParseBody(framing, b, eof, limits);
    if framing.Chunked? && r.Success? && r.value.Framed? {
      FramedDependsOnPrefix(b, eof, limits, 0, 0, b, eof);
      FramedDependsOnPrefix(b, eof, limits, 0, 0, b[..r.value.consumed], false);
    }
    if framing.ContentLength? && r.Success? && r.value.Framed? {
      assert b[..framing.length][..framing.length] == b[..framing.length];
    }
  }

  lemma FinalLocal(head: Head, b: Bytes, eof: bool, requestMethod: Bytes, limits: Limits, interim: nat)
    requires Completes(FinalResponse(head, b, eof, requestMethod, limits, interim))
    ensures var r := FinalResponse(head, b, eof, requestMethod, limits, interim);
      && r.value.consumed <= |b|
      && (r.value.response.framing.ConnectionClose? ==> eof && r.value.consumed == |b|)
      && (!r.value.response.framing.ConnectionClose? ==>
            FinalResponse(head, b[..r.value.consumed], false, requestMethod, limits, interim) == r)
  {
    hide ParseBody, DetermineFraming;
    var framing := DetermineFraming(requestMethod, head.status.version, head.status.statusCode, head.headers).value;
    if framing.ConnectionClose? {
      CloseBody(b, eof, limits);
    } else {
      BodyLocal(framing, b, eof, limits);
    }
  }

  lemma CloseBody(b: Bytes, eof: bool, limits: Limits)
    ensures var r := ParseBody(ConnectionClose, b, eof, limits);
      r.Success? && r.value.Framed? ==> eof && r.value == Framed(b, [], |b|)
  {
  }

  lemma NextHeadLocal(b: Bytes, eof: bool, limits: Limits, c: nat)
    requires !NextHead(b, eof, limits).Halt?
    requires NextHead(b, eof, limits).octets <= c <= |b|
    ensures NextHead(b[..c], false, limits) == NextHead(b, eof, limits)
  {
    hide HeadInBlock;
    FindDoubleCrlfExtends(b[..c], b[c..]);
    assert b == b[..c] + b[c..];
    var end := FindDoubleCrlf(b).value;
    assert b[..c][..end] == b[..end];
  }

  /**
   * A complete response is determined by the octets it consumed: unless the end of the stream
   * delimits it, those octets alone already complete it.
   */
  lemma {:induction false} VerdictLocal(b: Bytes, eof: bool, requestMethod: Bytes, limits: Limits, interim: nat)
    requires Completes(Parse(b, eof, requestMethod, limits, interim))
    ensures var r := Parse(b, eof, requestMethod, limits, interim);
      && r.value.consumed <= |b|
      && (r.value.response.framing.ConnectionClose? ==> eof && r.value.consumed == |b|)
      && (!r.value.response.framing.ConnectionClose? ==>
            Parse(b[..r.value.consumed], false, requestMethod, limits, interim) == r)
    decreases |b|
  {
    hide NextHead, FinalResponse;
    var r := Parse(b, eof, requestMethod, limits, interim);
    match NextHead(b, eof, limits)
    case Interim(n) =>
      VerdictLocal(b[n..], eof, requestMethod, limits, interim + 1);
      var c := r.value.consumed;
      NextHeadLocal(b, eof, limits, c);
      assert b[..c][n..] == b[n..][..c - n];
      if !r.value.response.framing.ConnectionClose? && c == n {
        assert b[n..][..0] == [];
        NothingIncomplete(requestMethod, limits, interim + 1);
      }
    case Final(head, n) =>
      FinalLocal(head, b[n..], eof, requestMethod, limits, interim);
      var c := r.value.consumed;
      NextHeadLocal(b, eof, limits, c);
      assert b[..c][n..] == b[n..][..c - n];
  }

  lemma NothingIncomplete(requestMethod: Bytes, limits: Limits, interim: nat)
    ensures Parse([], false, requestMethod, limits, interim) == Success(Incomplete)
  {
    assert FindDoubleCrlf([]).None?;
  }

  // --------------------------------------------------------------- end of stream

  lemma FinalDecidedAtEof(head: Head, b: Bytes, requestMethod: Bytes, limits: Limits, interim: nat)
    ensures FinalResponse(head, b, true, requestMethod, limits, interim) != Success(Incomplete)
  {
    hide Chunks, DetermineFraming;
    NeverPendingAtEof(b, limits, 0, 0);
  }

  /** At the end of the stream every buffer is a complete response or an error. */
  lemma {:induction false} DecidedAtEof(b: Bytes, requestMethod: Bytes, limits: Limits, interim: nat)
    ensures Parse(b, true, requestMethod, limits, interim) != Success(Incomplete)
    decreases |b|
  {
    hide NextHead, FinalResponse;
    match NextHead(b, true, limits)
    case Halt(_) =>
    case Interim(n) => DecidedAtEof(b[n..], requestMethod, limits, interim + 1);
    case Final(head, n) => FinalDecidedAtEof(head, b[n..], requestMethod, limits, interim);
  }

  /** The part of a wire before its end neither completes nor fails when the whole wire is one exact response. */
  lemma ProperPrefixIncomplete(w: Bytes, k: nat, requestMethod: Bytes, limits: Limits)
    requires Completes(Parse(w, true, requestMethod, limits, 0))
    requires k < Parse(w, true, requestMethod, limits, 0).value.consumed <= |w|
    ensures Parse(w[..k], false, requestMethod, limits, 0) == Success(Incomplete)
  {
    hide Parse;
    VerdictStable(w[..k], w[k..], true, requestMethod, limits, 0);
    assert w == w[..k] + w[k..];
  }

  // ---------------------------------------------------- what Complete guarantees

  /** The guarantees of a complete response: justified framing and every configured bound. */
  ghost predicate Guaranteed(response: Response, eof: bool, requestMethod: Bytes, limits: Limits) {
    && FramingJustified(response.framing, requestMethod, response.version, response.statusCode, response.headers)
    && (match response.framing
        case NoBody => response.body == []
        case ContentLength(n) => |response.body| == n
        case Chunked => response.version.Http11?
        case ConnectionClose => eof)
    && (!response.framing.Chunked? ==> response.trailers == [])
    && |response.body| <= limits.maximumResponseBodyBytes
    && |response.headers| <= limits.maximumHeaderCount
    && |response.trailers| <= limits.maximumTrailerCount
    && response.interimResponses <= limits.maximumInterimResponses
    && forall h :: h in response.trailers ==> h.name !in PROHIBITED_TRAILERS
  }

  lemma BodyGuaranteed(framing: Framing, b: Bytes, eof: bool, limits: Limits)
    requires ParseBody(framing, b, eof, limits).Success? && ParseBody(framing, b, eof, limits).value.Framed?
    ensures var f := ParseBody(framing, b, eof, limits).value;
      && (match framing
          case NoBody => f.body == []
          case ContentLength(n) => |f.body| == n
          case Chunked => true
          case ConnectionClose => eof)
      && (!framing.Chunked? ==> f.trailers == [])
      && |f.body| <= limits.maximumResponseBodyBytes
      && |f.trailers| <= limits.maximumTrailerCount
      && forall h :: h in f.trailers ==> h.name !in PROHIBITED_TRAILERS
  {
    hide Chunks, PROHIBITED_TRAILERS;
    if framing.Chunked? {
      FramedWithinLimits(b, eof, limits);
    }
  }

  lemma FinalGuaranteed(head: Head, b: Bytes, eof: bool, requestMethod: Bytes, limits: Limits, interim: nat)
    requires Completes(FinalResponse(head, b, eof, requestMethod, limits, interim))
    requires interim <= limits.maximumInterimResponses && |head.headers| <= limits.maximumHeaderCount
    ensures Guaranteed(FinalResponse(head, b, eof, requestMethod, limits, interim).value.response, eof, requestMethod,
                       limits)
  {
    hide ParseBody, DetermineFraming, FramingJustified;
    var framing := DetermineFraming(requestMethod, head.status.version, head.status.statusCode, head.headers).value;
    FramingExact(framing, requestMethod, head.status.version, head.status.statusCode, head.headers);
    BodyGuaranteed(framing, b, eof, limits);
    if framing.Chunked? {
      ChunkedNeedsHttp11(requestMethod, head.status.version, head.status.statusCode, head.headers);
    }
  }

  lemma ChunkedNeedsHttp11(requestMethod: Bytes, version: Version, statusCode: nat, headers: seq<Header>)
    requires FramingJustified(Chunked, requestMethod, version, statusCode, headers)
    ensures version.Http11?
  {
  }

  /** Framing is unambiguous and bounded in every complete response. */
  lemma {:induction false} CompleteIsGuaranteed(b: Bytes, eof: bool, requestMethod: Bytes, limits: Limits, interim: nat)
    requires Completes(Parse(b, eof, requestMethod, limits, interim))
    requires interim <= limits.maximumInterimResponses
    ensures Guaranteed(Parse(b, eof, requestMethod, limits, interim).value.response, eof, requestMethod, limits)
    decreases |b|
  {
    hide FinalResponse, Guaranteed, HeadInBlock;
    match NextHead(b, eof, limits)
    case Interim(n) => CompleteIsGuaranteed(b[n..], eof, requestMethod, limits, interim + 1);
    case Final(head, n) => FinalGuaranteed(head, b[n..], eof, requestMethod, limits, interim);
  }

  // -------------------------------------------------------- the source's loop

  lemma AdvanceTwice(r: Http1Result<Progress>, m: nat, n: nat)
    ensures Advance(Advance(r, n), m) == Advance(r, m + n)
  {
  }

  /** The part of the loop body that reads one head. */
  method ReadHead(bytes: Bytes, offset: nat, eof: bool, limits: Limits) returns (step: HeadStep)
    requires offset <= |bytes|
    ensures step == NextHead(bytes[offset..], eof, limits)
  {
    var b := bytes[offset..];
    var found := FindDoubleCrlf(b);
    if found.None? {
      if |b| > limits.maximumResponseHeaderBytes {
        return Halt(Failure(InvalidResponse(HeaderBlockTooLarge)));
      }
      if eof {
        return Halt(Failure(TruncatedResponse(InHeaderBlock)));
      }
      return Halt(Success(Incomplete));
    }
    var block := b[..found.value];
    if |block| > limits.maximumResponseHeaderBytes {
      return Halt(Failure(InvalidResponse(HeaderBlockTooLarge)));
    }
    var fault := CheckCrlfBlock(block);
    if fault.Some? {
      return Halt(Failure(InvalidResponse(LineEnding(fault.value))));
    }
    var lines := SplitLines(block[..|block| - 4]);
    var status := ParseStatusLine(lines[0]);
    if status.Failure? {
      return Halt(Failure(status.error));
    }
    var headers := ParseHeaders(lines[1..], limits, false);
    if headers.Failure? {
      return Halt(Failure(headers.error));
    }
    if 100 <= status.value.statusCode < 200 {
      if status.value.statusCode == 101 {
        return Halt(Failure(InvalidResponse(UpgradeUnsupported)));
      }
      return Interim(|block|);
    }
    return Final(Head(status.value, headers.value), |block|);
  }

  method ReadBody(framing: Framing, bytes: Bytes, start: nat, eof: bool, limits: Limits)
    returns (r: Http1Result<BodyProgress>)
    requires start <= |bytes|
    ensures r == ParseBody(framing, bytes[start..], eof, limits)
  {
    match framing
    case NoBody => r := Success(Framed([], [], 0));
    case ContentLength(length) =>
      if length > limits.maximumResponseBodyBytes {
        return Failure(InvalidResponse(ContentLengthTooLarge));
      }
      if |bytes| - start < length {
        return Starved(eof, InBody);
      }
      assert bytes[start..][..length] == bytes[start..start + length];
      r := Success(Framed(bytes[start..start + length], [], length));
    case Chunked => r := ParseChunked(bytes[start..], eof, limits);
    case ConnectionClose =>
      if !eof {
        return Success(Pending);
      }
      if |bytes| - start > limits.maximumResponseBodyBytes {
        return Failure(InvalidResponse(CloseBodyTooLarge));
      }
      r := Success(Framed(bytes[start..], [], |bytes| - start));
  }

  method ChooseFraming(requestMethod: Bytes, status: StatusLine, headers: seq<Header>) returns (r: Http1Result<Framing>)
    ensures r == DetermineFraming(requestMethod, status.version, status.statusCode, headers)
  {
    if NeverHasBody(requestMethod, status.statusCode) {
      return Success(NoBody);
    }
    var length := CollectContentLength(headers);
    if length.Failure? {
      return Failure(length.error);
    }
    var chunked := CollectTransferEncoding(headers);
    if chunked.Failure? {
      return Failure(chunked.error);
    }
    if length.value.Some? && chunked.value {
      return Failure(InvalidResponse(LengthAndTransferCoding));
    }
    if chunked.value {
      if !status.version.Http11? {
        return Failure(InvalidResponse(ChunkedRequiresHttp11));
      }
      return Success(Chunked);
    }
    if length.value.Some? {
      return Success(ContentLength(length.value.value));
    }
    return Success(ConnectionClose);
  }

  method ParseResponse(bytes: Bytes, eof: bool, requestMethod: Bytes, limits: Limits) returns (r: Http1Result<Progress>)
    ensures r == Parse(bytes, eof, requestMethod, limits, 0)
  {
    hide NextHead, ParseBody, DetermineFraming;
    var offset, interim := 0, 0;
    assert bytes[0..] == bytes;
    while true
      invariant offset <= |bytes|
      invariant Parse(bytes, eof, requestMethod, limits, 0)
             == Advance(Parse(bytes[offset..], eof, requestMethod, limits, interim), offset)
      decreases |bytes| - offset
    {
      var step := ReadHead(bytes, offset, eof, limits);
      match step
      case Halt(verdict) => return verdict;
      case Interim(n) =>
        interim := interim + 1;
        if interim > limits.maximumInterimResponses {
          return Failure(InvalidResponse(TooManyInterimResponses));
        }
        assert bytes[offset..][n..] == bytes[offset + n..];
        if offset + n >= |bytes| {
          if eof {
            return Failure(TruncatedResponse(AfterInterimResponse));
          }
          return Success(Incomplete);
        }
        AdvanceTwice(Parse(bytes[offset + n..], eof, requestMethod, limits, interim), offset, n);
        offset := offset + n;
      case Final(head, n) =>
        assert bytes[offset..][n..] == bytes[offset + n..];
        var framing := ChooseFraming(requestMethod, head.status, head.headers);
        if framing.Failure? {
          return Failure(framing.error);
        }
        var body := ReadBody(framing.value, bytes, offset + n, eof, limits);
        return Advance(FinishResponse(head, framing.value, interim, body), offset + n);
    }
  }
}
