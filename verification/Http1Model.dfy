/** Entities of the HTTP/1.1 wire layer. */
module Http1Model {
  import opened Bytes
  import opened Http1Lines
  import opened Wrappers

  datatype Limits = Limits(
    maximumRequestHeaderBytes: nat,
    maximumResponseHeaderBytes: nat,
    maximumHeaderCount: nat,
    maximumHeaderNameBytes: nat,
    maximumHeaderValueBytes: nat,
    maximumRequestBodyBytes: nat,
    maximumResponseBodyBytes: nat,
    maximumChunkBytes: nat,
    maximumChunkCount: nat,
    maximumTrailerBytes: nat,
    maximumTrailerCount: nat,
    maximumInterimResponses: nat,
    ioOperationBytes: nat,
    maximumBackpressureEvents: nat,
    maximumResponseWireBytes: nat)
  {
    /** The configurations a codec accepts; within them no 64-bit sum of the parser overflows. */
    predicate Valid() {
      && 0 < maximumRequestHeaderBytes <= 256 * 1024
      && 0 < maximumResponseHeaderBytes <= 256 * 1024
      && 0 < maximumHeaderCount <= 512
      && 0 < maximumHeaderNameBytes <= 1024
      && 0 < maximumHeaderValueBytes <= 256 * 1024
      && 0 < maximumRequestBodyBytes <= 64 * 1024 * 1024
      && 0 < maximumResponseBodyBytes <= 64 * 1024 * 1024
      && 0 < maximumChunkBytes <= maximumResponseBodyBytes
      && 0 < maximumChunkCount <= 65_536
      && 0 < maximumTrailerBytes <= 64 * 1024
      && 0 < maximumTrailerCount <= maximumHeaderCount
      && 0 < maximumInterimResponses <= 32
      && 0 < ioOperationBytes <= 64 * 1024
      && 0 < maximumBackpressureEvents <= 1_024
      && 0 < maximumResponseWireBytes <= 96 * 1024 * 1024
      && maximumResponseBodyBytes <= maximumResponseWireBytes
    }
  }

  /** The conservative defaults. */
  const DEFAULT_LIMITS := Limits(
    32 * 1024, 64 * 1024, 128, 128, 8 * 1024, 2 * 1024 * 1024, 8 * 1024 * 1024,
    1024 * 1024, 4_096, 16 * 1024, 32, 8, 16 * 1024, 32, 16 * 1024 * 1024)

  type ValidLimits = l: Limits | l.Valid() witness DEFAULT_LIMITS

  datatype Header = Header(name: Bytes, value: Bytes)

  datatype Version = Http10 | Http11

  datatype Framing = NoBody | ContentLength(length: nat) | Chunked | ConnectionClose

  datatype Response = Response(
    version: Version,
    statusCode: nat,
    reason: Bytes,
    headers: seq<Header>,
    trailers: seq<Header>,
    body: Bytes,
    framing: Framing,
    interimResponses: nat)

  datatype Request = Request(requestMethod: Bytes, target: Bytes, headers: seq<Header>, body: Bytes)

  datatype ResponseFault =
    | HeaderBlockTooLarge
    | LineEnding(fault: LineFault)
    | StatusLineTab
    | StatusCodeMissing
    | UnsupportedVersion
    | StatusCodeDigits
    | StatusCodeSpace
    | StatusCodeRange
    | ReasonByte
    | HeaderCount
    | TrailerCount
    | EmptyHeaderLine
    | FoldedHeader
    | MissingColon
    | EmptyHeaderName
    | HeaderNameTooLong
    | HeaderNameByte
    | ProhibitedTrailer
    | HeaderValueTooLong
    | HeaderValueByte
    | UpgradeUnsupported
    | TooManyInterimResponses
    | ContentLengthMalformed
    | ContentLengthOverflow
    | ContentLengthConflict
    | TransferCodingMalformed
    | TransferCodingUnsupported
    | LengthAndTransferCoding
    | ChunkedRequiresHttp11
    | ContentLengthTooLarge
    | CloseBodyTooLarge
    | ChunkLineTooLong
    | ChunkExtension
    | ChunkSizeMalformed
    | TrailerBlockTooLarge
    | ChunkCount
    | ChunkTooLarge
    | DecodedBodyTooLarge
    | ChunkTerminator
    | TrailingBytes
    | DataWithoutBytes
    | WireTooLarge

  datatype Truncation =
    | InHeaderBlock
    | AfterInterimResponse
    | InBody
    | InChunkLine
    | AfterZeroChunk
    | InTrailerBlock
    | InChunkData
    | ReportedByStream
    | BeforeFramingCompleted

  datatype RequestFault =
    | MethodInvalid
    | TargetInvalid
    | AuthorityMalformed
    | BodyTooLarge
    | HeaderInvalid
    | ManagedHeader
    | SensitiveHeader
    | RequestHeaderCount
    | RequestHeaderBlockTooLarge
    | WriteLengthInvalid

  datatype Http1Error =
    | InvalidRequest(requestFault: RequestFault)
    | InvalidResponse(responseFault: ResponseFault)
    | TruncatedResponse(truncation: Truncation)
    | StreamOutcome
    | BackpressureBudgetExceeded
    | StreamFailed

  type Http1Result<+T> = Result<T, Http1Error>

  datatype Progress = Incomplete | Complete(response: Response, consumed: nat)

  /** A body that still needs octets, or one that is framed. */
  datatype BodyProgress = Pending | Framed(body: Bytes, trailers: seq<Header>, consumed: nat)
}
