/** The chunked transfer coding of section 7.1 of RFC 9112, without chunk extensions. */
module Http1Chunked {
  import opened Wrappers
  import opened Bytes
  import opened Http1Lines
  import opened Http1Model
  import opened Http1Head

  const SEMICOLON: u8 := 59

  predicate IsHexDigit(c: u8) {
    IsDigit(c) || 65 <= c <= 70 || 97 <= c <= 102
  }

  function HexDigit(c: u8): nat
    requires IsHexDigit(c)
  {
    if IsDigit(c) then c as int - 48
    else if c <= 70 then c as int - 55
    else c as int - 87
  }

  predicate AllHex(b: Bytes) {
    forall i :: 0 <= i < |b| ==> IsHexDigit(b[i])
  }

  function HexValue(b: Bytes): nat
    requires AllHex(b)
  {
    if b == [] then 0
    else 16 * HexValue(b[..|b| - 1]) + HexDigit(b[|b| - 1])
  }

  predicate SizeLine(line: Bytes) {
    1 <= |line| <= 16 && AllHex(line)
  }

  /** More octets are needed: an error once the stream has ended. */
  function Starved(eof: bool, where: Truncation): Http1Result<BodyProgress> {
    if eof then Failure(TruncatedResponse(where)) else Success(Pending)
  }

  /** A result for the octets after a decoded prefix, as a result for the whole. */
  function Shift(r: Http1Result<BodyProgress>, data: Bytes, octets: nat): Http1Result<BodyProgress> {
    match r
    case Success(Framed(body, trailers, consumed)) => Success(Framed(data + body, trailers, octets + consumed))
    case _ => r
  }

  function TrailerBlock(block: Bytes, limits: Limits): (r: Http1Result<seq<Header>>)
    requires |block| >= 4
    ensures r.Failure? ==> r.error.InvalidResponse?
  {
    if |block| > limits.maximumTrailerBytes then Failure(InvalidResponse(TrailerBlockTooLarge))
    else match LineFaultFrom(block, 0)
      case Some(fault) => Failure(InvalidResponse(LineEnding(fault)))
      case None => ParseHeaderLines(SplitCrlf(block[..|block| - 4]), limits, true)
  }

  function TrailerSection(b: Bytes, eof: bool, limits: Limits): Http1Result<BodyProgress> {
    if |b| < 2 then Starved(eof, AfterZeroChunk)
    else if b[..2] == CRLF then Success(Framed([], [], 2))
    else match FindDoubleCrlf(b)
      case None =>
        if |b| > limits.maximumTrailerBytes then Failure(InvalidResponse(TrailerBlockTooLarge))
        else Starved(eof, InTrailerBlock)
      case Some(end) =>
        var trailers :- TrailerBlock(b[..end], limits);
        Success(Framed([], trailers, end))
  }

  predicate ChunkFits(size: nat, limits: Limits, count: nat, total: nat) {
    && count + 1 <= limits.maximumChunkCount
    && size <= limits.maximumChunkBytes
    && total + size <= limits.maximumResponseBodyBytes
  }

  function ChunkFault(size: nat, limits: Limits, count: nat): ResponseFault {
    if count + 1 > limits.maximumChunkCount then ResponseFault.ChunkCount
    else if size > limits.maximumChunkBytes then ChunkTooLarge
    else DecodedBodyTooLarge
  }

  /** What stands at a chunk boundary: the last-chunk line, a whole data chunk, or nothing decodable yet. */
  datatype Step =
    | Stop(result: Http1Result<BodyProgress>)
    | LastChunk(octets: nat)
    | DataChunk(data: Bytes, octets: nat)

  function NextChunk(b: Bytes, eof: bool, limits: Limits, count: nat, total: nat): (r: Step)
    ensures r.LastChunk? ==> 0 < r.octets <= |b|
    ensures r.DataChunk? ==> 0 < r.octets <= |b|
    ensures r.Stop? ==> r.result != Success(Pending) ==> r.result.Failure?
    ensures r.Stop? ==> (eof ==> r.result.Failure?) && (!eof && r.result.Failure? ==> r.result.error.InvalidResponse?)
  {
    match FindCrlf(b)
    case None =>
      Stop(if |b| > 128 then Failure(InvalidResponse(ChunkLineTooLong)) else Starved(eof, InChunkLine))
    case Some(i) =>
      if SEMICOLON in b[..i] then Stop(Failure(InvalidResponse(ChunkExtension)))
      else if !SizeLine(b[..i]) then Stop(Failure(InvalidResponse(ChunkSizeMalformed)))
      else if HexValue(b[..i]) == 0 then LastChunk(i + 2)
      else ChunkOfSize(HexValue(b[..i]), b, i + 2, eof, limits, count, total)
  }

  /** The chunk of the given size whose data begins at start. */
  function ChunkOfSize(size: nat, b: Bytes, start: nat, eof: bool, limits: Limits, count: nat, total: nat): (r: Step)
    requires 0 < start <= |b|
    ensures !r.LastChunk?
    ensures r.DataChunk? ==> 0 < r.octets <= |b|
    ensures r.Stop? ==> r.result != Success(Pending) ==> r.result.Failure?
    ensures r.Stop? ==> (eof ==> r.result.Failure?) && (!eof && r.result.Failure? ==> r.result.error.InvalidResponse?)
  {
    if !ChunkFits(size, limits, count, total) then Stop(Failure(InvalidResponse(ChunkFault(size, limits, count))))
    else if |b| < start + size + 2 then Stop(Starved(eof, InChunkData))
    else if !CrlfAt(b, start + size) then Stop(Failure(InvalidResponse(ChunkTerminator)))
    else DataChunk(b[start..start + size], start + size + 2)
  }

  /** Decodes from a chunk boundary, after count chunks that held total octets. */
  function Chunks(b: Bytes, eof: bool, limits: Limits, count: nat, total: nat): Http1Result<BodyProgress>
    decreases |b|
  {
    match NextChunk(b, eof, limits, count, total)
    case Stop(r) => r
    case LastChunk(n) => Shift(TrailerSection(b[n..], eof, limits), [], n)
    case DataChunk(data, n) => Shift(Chunks(b[n..], eof, limits, count + 1, total + |data|), data, n)
  }

  // ------------------------------------------------------------------ grammar

  /** One chunk as written: a size line in hexadecimal and the octets it announces. */
  datatype Chunk = Chunk(size: Bytes, data: Bytes)

  /** The last-chunk line and the trailer lines after it. */
  datatype Ending = Ending(zero: Bytes, trailerLines: seq<Bytes>)

  predicate ValidChunk(c: Chunk, limits: Limits) {
    SizeLine(c.size) && HexValue(c.size) == |c.data| && 0 < |c.data| <= limits.maximumChunkBytes
  }

  function EncodeChunk(c: Chunk): Bytes {
    c.size + CRLF + c.data + CRLF
  }

  function EncodeChunks(cs: seq<Chunk>): Bytes {
    if cs == [] then [] else EncodeChunk(cs[0]) + EncodeChunks(cs[1..])
  }

  function Payload(cs: seq<Chunk>): Bytes {
    if cs == [] then [] else cs[0].data + Payload(cs[1..])
  }

  function EncodeTrailers(lines: seq<Bytes>): Bytes {
    if lines == [] then CRLF else JoinCrlf(lines) + CRLF + CRLF
  }

  function EncodeEnding(e: Ending): Bytes {
    e.zero + CRLF + EncodeTrailers(e.trailerLines)
  }

  predicate ValidTrailers(lines: seq<Bytes>, limits: Limits) {
    && AllClean(lines)
    && (lines != [] ==> |EncodeTrailers(lines)| <= limits.maximumTrailerBytes)
    && ParseHeaderLines(lines, limits, true).Success?
  }

  predicate ValidEnding(e: Ending, limits: Limits) {
    SizeLine(e.zero) && HexValue(e.zero) == 0 && ValidTrailers(e.trailerLines, limits)
  }

  predicate ValidCoding(cs: seq<Chunk>, e: Ending, limits: Limits, count: nat, total: nat) {
    && (forall i :: 0 <= i < |cs| ==> ValidChunk(cs[i], limits))
    && (cs != [] ==>
          count + |cs| <= limits.maximumChunkCount && total + |Payload(cs)| <= limits.maximumResponseBodyBytes)
    && ValidEnding(e, limits)
  }

  function Encode(cs: seq<Chunk>, e: Ending): Bytes {
    EncodeChunks(cs) + EncodeEnding(e)
  }

  function Trailers(e: Ending, limits: Limits): seq<Header>
    requires ValidEnding(e, limits)
  {
    ParseHeaderLines(e.trailerLines, limits, true).value
  }

  // ---------------------------------------------- every encoding is decoded

  lemma NoLinesParse(limits: Limits)
    ensures ParseHeaderLines([], limits, true) == Success([])
  {
  }

  lemma ParsedLinesNonEmpty(lines: seq<Bytes>, limits: Limits)
    requires ParseHeaderLines(lines, limits, true).Success?
    ensures NoneEmpty(lines)
  {
    var headers := ParseHeaderLines(lines, limits, true).value;
    assert forall i :: 0 <= i < |lines| ==> ParseHeaderLine(lines[i], limits, true) == Success(headers[i]);
  }

  lemma TrailerBlockComplete(lines: seq<Bytes>, limits: Limits)
    requires lines != [] && ValidTrailers(lines, limits)
    ensures TrailerBlock(EncodeTrailers(lines), limits) == ParseHeaderLines(lines, limits, true)
  {
    hide ParseHeaderLines, JoinCrlf, SplitCrlf;
    var block := EncodeTrailers(lines);
    JoinedBlockIsPaired(lines);
    SplitOfJoin(lines);
    assert block[..|block| - 4] == JoinCrlf(lines);
  }

  lemma TrailersComplete(lines: seq<Bytes>, s: Bytes, eof: bool, limits: Limits)
    requires ValidTrailers(lines, limits)
    ensures TrailerSection(EncodeTrailers(lines) + s, eof, limits)
         == Success(Framed([], ParseHeaderLines(lines, limits, true).value, |EncodeTrailers(lines)|))
  {
    hide ParseHeaderLines, TrailerBlock;
    var block := EncodeTrailers(lines);
    var b := block + s;
    if lines == [] {
      NoLinesParse(limits);
      assert b[..2] == CRLF;
    } else {
      ParsedLinesNonEmpty(lines, limits);
      BlockEndsAtDoubleCrlf(lines, s);
      TrailerBlockComplete(lines, limits);
      assert b[..|block|] == block;
      assert b[..2][0] == b[0] == lines[0][0];
    }
  }

  lemma SizeLineFound(line: Bytes, rest: Bytes)
    requires SizeLine(line)
    ensures FindCrlf(line + CRLF + rest) == Some(|line|)
    ensures (line + CRLF + rest)[..|line|] == line
    ensures SEMICOLON !in line
  {
    assert forall i :: 0 <= i < |line| ==> IsHexDigit(line[i]);
    FirstCrlfAfterCleanLine(line, rest);
  }

  lemma NextIsLastChunk(zero: Bytes, rest: Bytes, eof: bool, limits: Limits, count: nat, total: nat)
    requires SizeLine(zero) && HexValue(zero) == 0
    ensures NextChunk(zero + CRLF + rest, eof, limits, count, total) == LastChunk(|zero| + 2)
  {
    SizeLineFound(zero, rest);
  }

  lemma NextIsDataChunk(c: Chunk, rest: Bytes, eof: bool, limits: Limits, count: nat, total: nat)
    requires ValidChunk(c, limits) && ChunkFits(|c.data|, limits, count, total)
    ensures NextChunk(EncodeChunk(c) + rest, eof, limits, count, total) == DataChunk(c.data, |EncodeChunk(c)|)
  {
    var b := EncodeChunk(c) + rest;
    assert b == c.size + CRLF + (c.data + CRLF + rest);
    SizeLineFound(c.size, c.data + CRLF + rest);
    var start := |c.size| + 2;
    assert b[start..start + |c.data|] == c.data;
    assert CrlfAt(b, start + |c.data|);
  }

  lemma CompleteEnding(e: Ending, s: Bytes, eof: bool, limits: Limits, count: nat, total: nat)
    requires ValidEnding(e, limits)
    ensures Chunks(EncodeEnding(e) + s, eof, limits, count, total)
         == Success(Framed([], Trailers(e, limits), |EncodeEnding(e)|))
  {
    hide NextChunk, TrailerSection, ParseHeaderLines, EncodeTrailers, SizeLine;
    var rest := EncodeTrailers(e.trailerLines) + s;
    var b := EncodeEnding(e) + s;
    assert b == e.zero + CRLF + rest;
    assert b[|e.zero| + 2..] == rest;
    NextIsLastChunk(e.zero, rest, eof, limits, count, total);
    TrailersComplete(e.trailerLines, s, eof, limits);
    var none: Bytes := [];
    assert none + none == none;
  }

  /** Every encoding within the limits decodes to its payload and consumes exactly itself. */
  lemma {:induction false} Complete(cs: seq<Chunk>, e: Ending, s: Bytes, eof: bool, limits: Limits, count: nat,
                                    total: nat)
    requires ValidCoding(cs, e, limits, count, total)
    ensures Chunks(Encode(cs, e) + s, eof, limits, count, total)
         == Success(Framed(Payload(cs), Trailers(e, limits), |Encode(cs, e)|))
    decreases |cs|
  {
    hide NextChunk, TrailerSection, ParseHeaderLines, EncodeEnding, EncodeChunk, ValidEnding;
    var b := Encode(cs, e) + s;
    if cs == [] {
      assert Encode(cs, e) == EncodeEnding(e);
      CompleteEnding(e, s, eof, limits, count, total);
    } else {
      var c := cs[0];
      var later := Encode(cs[1..], e) + s;
      assert ValidChunk(c, limits);
      assert b == EncodeChunk(c) + later;
      assert b[|EncodeChunk(c)|..] == later;
      NextIsDataChunk(c, later, eof, limits, count, total);
      Complete(cs[1..], e, s, eof, limits, count + 1, total + |c.data|);
    }
  }

  // ------------------------------------------ everything decoded is an encoding

  lemma TrailerBlockSound(block: Bytes, limits: Limits) returns (lines: seq<Bytes>)
    requires |block| >= 4 && DoubleCrlfAt(block, |block| - 4)
    requires TrailerBlock(block, limits).Success?
    ensures lines != [] && ValidTrailers(lines, limits) && EncodeTrailers(lines) == block
    ensures ParseHeaderLines(lines, limits, true) == TrailerBlock(block, limits)
  {
    hide ParseHeaderLines, JoinCrlf, SplitCrlf;
    var content := block[..|block| - 4];
    lines := SplitCrlf(content);
    PairedBlockContent(block);
    SplitOfPairedIsClean(content);
    JoinOfSplit(content);
    assert block == content + CRLF + CRLF;
  }

  lemma TrailersSound(b: Bytes, eof: bool, limits: Limits) returns (lines: seq<Bytes>)
    requires TrailerSection(b, eof, limits).Success? && TrailerSection(b, eof, limits).value.Framed?
    ensures ValidTrailers(lines, limits)
    ensures EncodeTrailers(lines) <= b
    ensures TrailerSection(b, eof, limits).value
         == Framed([], ParseHeaderLines(lines, limits, true).value, |EncodeTrailers(lines)|)
  {
    hide ParseHeaderLines, TrailerBlock, JoinCrlf;
    if b[..2] == CRLF {
      lines := [];
      NoLinesParse(limits);
      assert EncodeTrailers(lines) == b[..2];
    } else {
      var end := FindDoubleCrlf(b).value;
      assert DoubleCrlfAt(b[..end], end - 4);
      lines := TrailerBlockSound(b[..end], limits);
    }
  }

  lemma LastChunkSound(b: Bytes, eof: bool, limits: Limits, count: nat, total: nat) returns (zero: Bytes)
    requires NextChunk(b, eof, limits, count, total).LastChunk?
    ensures SizeLine(zero) && HexValue(zero) == 0
    ensures b[..NextChunk(b, eof, limits, count, total).octets] == zero + CRLF
  {
    zero := b[..FindCrlf(b).value];
  }

  lemma DataChunkSound(b: Bytes, eof: bool, limits: Limits, count: nat, total: nat) returns (c: Chunk)
    requires NextChunk(b, eof, limits, count, total).DataChunk?
    ensures ValidChunk(c, limits) && ChunkFits(|c.data|, limits, count, total)
    ensures NextChunk(b, eof, limits, count, total).data == c.data
    ensures b[..NextChunk(b, eof, limits, count, total).octets] == EncodeChunk(c)
  {
    var i := FindCrlf(b).value;
    var size := HexValue(b[..i]);
    c := Chunk(b[..i], b[i + 2..i + 2 + size]);
    assert b[..i + 2] == c.size + CRLF;
    assert b[i + 2 + size..i + 2 + size + 2] == CRLF;
    assert b[..i + 2 + size + 2] == b[..i + 2] + c.data + CRLF;
  }

  lemma EncodingAhead(b: Bytes, c: Chunk, later: seq<Chunk>, e: Ending)
    requires EncodeChunk(c) <= b && Encode(later, e) <= b[|EncodeChunk(c)|..]
    ensures Encode([c] + later, e) == EncodeChunk(c) + Encode(later, e)
    ensures Encode([c] + later, e) <= b
    ensures Payload([c] + later) == c.data + Payload(later)
  {
    assert ([c] + later)[1..] == later;
    var n := |EncodeChunk(c)|;
    assert b == b[..n] + b[n..];
  }

  /** Whatever is decoded is the payload of an encoding within the limits, and that encoding was consumed. */
  lemma {:induction false} Sound(b: Bytes, eof: bool, limits: Limits, count: nat, total: nat) returns (cs: seq<Chunk>,
      e: Ending)
    requires Chunks(b, eof, limits, count, total).Success? && Chunks(b, eof, limits, count, total).value.Framed?
    ensures ValidCoding(cs, e, limits, count, total)
    ensures Encode(cs, e) <= b
    ensures Chunks(b, eof, limits, count, total).value
         == Framed(Payload(cs), Trailers(e, limits), |Encode(cs, e)|)
    decreases |b|
  {
    hide NextChunk, TrailerSection, ParseHeaderLines, EncodeTrailers, EncodeChunk;
    match NextChunk(b, eof, limits, count, total)
    case LastChunk(n) =>
      var zero := LastChunkSound(b, eof, limits, count, total);
      var lines := TrailersSound(b[n..], eof, limits);
      cs, e := [], Ending(zero, lines);
      assert Encode(cs, e) == b[..n] + EncodeTrailers(lines);
      assert b == b[..n] + b[n..];
    case DataChunk(data, n) =>
      var c := DataChunkSound(b, eof, limits, count, total);
      var later, ending := Sound(b[n..], eof, limits, count + 1, total + |data|);
      cs, e := [c] + later, ending;
      EncodingAhead(b, c, later, ending);
  }

  /** The decoder accepts exactly the encodings within the limits, and returns what was encoded. */
  lemma ChunkedDecidesGrammar(b: Bytes, eof: bool, limits: Limits, f: BodyProgress)
    requires f.Framed?
    ensures Chunks(b, eof, limits, 0, 0) == Success(f)
       <==> exists cs, e :: IsCodingOf(b, cs, e, limits, f)
  {
    hide Chunks, Encode, ValidCoding, ParseHeaderLines;
    if Chunks(b, eof, limits, 0, 0) == Success(f) {
      var cs, e := Sound(b, eof, limits, 0, 0);
      assert IsCodingOf(b, cs, e, limits, f);
    }
    forall cs, e | IsCodingOf(b, cs, e, limits, f)
      ensures Chunks(b, eof, limits, 0, 0) == Success(f)
    {
      var n := |Encode(cs, e)|;
      assert b == Encode(cs, e) + b[n..];
      Complete(cs, e, b[n..], eof, limits, 0, 0);
    }
  }

  ghost predicate IsCodingOf(b: Bytes, cs: seq<Chunk>, e: Ending, limits: Limits, f: BodyProgress) {
    && ValidCoding(cs, e, limits, 0, 0)
    && Encode(cs, e) <= b
    && f == Framed(Payload(cs), Trailers(e, limits), |Encode(cs, e)|)
  }

  // -------------------------------------------------------- verdict stability

  /** A framed body is fixed by the octets it consumed. */
  lemma FramedDependsOnPrefix(b: Bytes, eof: bool, limits: Limits, count: nat, total: nat, c: Bytes, eof': bool)
    requires Chunks(b, eof, limits, count, total).Success? && Chunks(b, eof, limits, count, total).value.Framed?
    ensures Chunks(b, eof, limits, count, total).value.consumed <= |b|
    ensures b[..Chunks(b, eof, limits, count, total).value.consumed] <= c
        ==> Chunks(c, eof', limits, count, total) == Chunks(b, eof, limits, count, total)
  {
    hide Chunks, Encode, ParseHeaderLines;
    var cs, e := Sound(b, eof, limits, count, total);
    var n := |Encode(cs, e)|;
    if b[..n] <= c {
      assert c == Encode(cs, e) + c[n..];
      Complete(cs, e, c[n..], eof', limits, count, total);
    }
  }

  lemma TrailerErrorStable(b: Bytes, s: Bytes, eof: bool, limits: Limits)
    requires TrailerSection(b, false, limits).Failure?
    ensures TrailerSection(b, false, limits).error.InvalidResponse?
    ensures TrailerSection(b + s, eof, limits).Failure? && TrailerSection(b + s, eof, limits).error.InvalidResponse?
  {
    FindDoubleCrlfExtends(b, s);
    assert (b + s)[..2] == b[..2];
    if FindDoubleCrlf(b).Some? {
      assert (b + s)[..FindDoubleCrlf(b).value] == b[..FindDoubleCrlf(b).value];
    }
  }

  lemma NextChunkExtends(b: Bytes, s: Bytes, eof: bool, limits: Limits, count: nat, total: nat)
    ensures var r, r' := NextChunk(b, false, limits, count, total), NextChunk(b + s, eof, limits, count, total);
      && (!r.Stop? ==> r' == r)
      && (r.Stop? && r.result.Failure? ==> r'.Stop? && r'.result.Failure? && r'.result.error.InvalidResponse?)
  {
    FindCrlfExtends(b, s);
    match FindCrlf(b)
    case None =>
    case Some(i) =>
      assert (b + s)[..i] == b[..i];
      if SizeLine(b[..i]) && ChunkFits(HexValue(b[..i]), limits, count, total) {
        var end := i + 2 + HexValue(b[..i]);
        if end + 2 <= |b| {
          assert (b + s)[i + 2..end] == b[i + 2..end];
          assert CrlfAt(b + s, end) <==> CrlfAt(b, end);
        }
      }
  }

  /** An error found before the end of the stream stays an error, whatever arrives later. */
  lemma {:induction false} ErrorStable(b: Bytes, s: Bytes, eof: bool, limits: Limits, count: nat, total: nat)
    requires Chunks(b, false, limits, count, total).Failure?
    ensures Chunks(b, false, limits, count, total).error.InvalidResponse?
    ensures Chunks(b + s, eof, limits, count, total).Failure?
    ensures Chunks(b + s, eof, limits, count, total).error.InvalidResponse?
    decreases |b|
  {
    hide NextChunk, TrailerSection;
    NextChunkExtends(b, s, eof, limits, count, total);
    match NextChunk(b, false, limits, count, total)
    case Stop(_) =>
    case LastChunk(n) =>
      assert (b + s)[n..] == b[n..] + s;
      TrailerErrorStable(b[n..], s, eof, limits);
    case DataChunk(data, n) =>
      assert (b + s)[n..] == b[n..] + s;
      ErrorStable(b[n..], s, eof, limits, count + 1, total + |data|);
  }

  /** At the end of the stream a chunked body is framed or rejected, never pending. */
  lemma {:induction false} NeverPendingAtEof(b: Bytes, limits: Limits, count: nat, total: nat)
    ensures Chunks(b, true, limits, count, total) != Success(Pending)
    decreases |b|
  {
    hide NextChunk, TrailerBlock;
    match NextChunk(b, true, limits, count, total)
    case Stop(_) =>
    case LastChunk(_) =>
    case DataChunk(data, n) => NeverPendingAtEof(b[n..], limits, count + 1, total + |data|);
  }

  /** Bounds on what a decoded body can hold. */
  lemma FramedWithinLimits(b: Bytes, eof: bool, limits: Limits)
    requires Chunks(b, eof, limits, 0, 0).Success? && Chunks(b, eof, limits, 0, 0).value.Framed?
    ensures var f := Chunks(b, eof, limits, 0, 0).value;
      && |f.body| <= limits.maximumResponseBodyBytes
      && |f.trailers| <= limits.maximumTrailerCount
      && forall h :: h in f.trailers ==> h.name !in PROHIBITED_TRAILERS
  {
    var cs, e := Sound(b, eof, limits, 0, 0);
    AcceptedTrailersPermitted(e.trailerLines, limits);
  }

  // ------------------------------------------------------- the source's loop

  lemma ShiftNothing(r: Http1Result<BodyProgress>)
    ensures Shift(r, [], 0) == r
  {
    if r.Success? && r.value.Framed? {
      assert [] + r.value.body == r.value.body;
    }
  }

  lemma ShiftTwice(r: Http1Result<BodyProgress>, d: Bytes, m: nat, d': Bytes, n: nat)
    ensures Shift(Shift(r, d', n), d, m) == Shift(r, d + d', m + n)
  {
    if r.Success? && r.value.Framed? {
      assert d + (d' + r.value.body) == d + d' + r.value.body;
    }
  }

  method ParseTrailers(bytes: Bytes, start: nat, eof: bool, limits: Limits) returns (r: Http1Result<BodyProgress>)
    requires start <= |bytes|
    ensures r == TrailerSection(bytes[start..], eof, limits)
  {
    var b := bytes[start..];
    if |b| < 2 {
      return Starved(eof, AfterZeroChunk);
    }
    if b[..2] == CRLF {
      return Success(Framed([], [], 2));
    }
    match FindDoubleCrlf(b)
    case None =>
      if |b| > limits.maximumTrailerBytes {
        return Failure(InvalidResponse(TrailerBlockTooLarge));
      }
      return Starved(eof, InTrailerBlock);
    case Some(end) =>
      if end > limits.maximumTrailerBytes {
        return Failure(InvalidResponse(TrailerBlockTooLarge));
      }
      var fault := CheckCrlfBlock(b[..end]);
      if fault.Some? {
        return Failure(InvalidResponse(LineEnding(fault.value)));
      }
      var lines := SplitLines(b[..end][..end - 4]);
      var trailers := ParseHeaders(lines, limits, true);
      if trailers.Failure? {
        return Failure(trailers.error);
      }
      return Success(Framed([], trailers.value, end));
  }

  method ParseChunked(bytes: Bytes, eof: bool, limits: Limits) returns (r: Http1Result<BodyProgress>)
    ensures r == Chunks(bytes, eof, limits, 0, 0)
  {
    hide NextChunk, TrailerSection, Shift, SizeLine, ChunkFits;
    var cursor, decoded, chunks := 0, [], 0;
    ghost var whole := Chunks(bytes, eof, limits, 0, 0);
    ShiftNothing(whole);
    assert bytes[0..] == bytes;
    while true
      invariant cursor <= |bytes|
      invariant whole == Shift(Chunks(bytes[cursor..], eof, limits, chunks, |decoded|), decoded, cursor)
      decreases |bytes| - cursor
    {
      var step := ReadChunk(bytes, cursor, eof, limits, chunks, |decoded|);
      match step
      case Stop(verdict) =>
        ShiftVerdict(verdict, decoded, cursor);
        return verdict;
      case LastChunk(octets) =>
        assert bytes[cursor..][octets..] == bytes[cursor + octets..];
        var ending := ParseTrailers(bytes, cursor + octets, eof, limits);
        ShiftTwice(ending, decoded, cursor, [], octets);
        assert decoded + [] == decoded;
        return Shift(ending, decoded, cursor + octets);
      case DataChunk(data, octets) =>
        assert bytes[cursor..][octets..] == bytes[cursor + octets..];
        ShiftTwice(Chunks(bytes[cursor + octets..], eof, limits, chunks + 1, |decoded| + |data|),
                   decoded, cursor, data, octets);
        decoded := decoded + data;
        chunks := chunks + 1;
        cursor := cursor + octets;
    }
  }

  lemma ShiftVerdict(r: Http1Result<BodyProgress>, d: Bytes, n: nat)
    requires r.Success? ==> r.value.Pending?
    ensures Shift(r, d, n) == r
  {
  }

  /** The part of the loop body that looks at one size line and its data. */
  method ReadChunk(bytes: Bytes, cursor: nat, eof: bool, limits: Limits, chunks: nat, decoded: nat) returns (step: Step)
    requires cursor <= |bytes|
    ensures step == NextChunk(bytes[cursor..], eof, limits, chunks, decoded)
  {
    var b := bytes[cursor..];
    var found := FindCrlf(b);
    if found.None? {
      if |b| > 128 {
        return Stop(Failure(InvalidResponse(ChunkLineTooLong)));
      }
      return Stop(Starved(eof, InChunkLine));
    }
    var line := b[..found.value];
    if SEMICOLON in line {
      return Stop(Failure(InvalidResponse(ChunkExtension)));
    }
    if |line| == 0 || |line| > 16 || !AllHex(line) {
      return Stop(Failure(InvalidResponse(ChunkSizeMalformed)));
    }
    var size := HexValue(line);
    var start := found.value + 2;
    if size == 0 {
      return LastChunk(start);
    }
    if chunks + 1 > limits.maximumChunkCount {
      return Stop(Failure(InvalidResponse(ResponseFault.ChunkCount)));
    }
    if size > limits.maximumChunkBytes {
      return Stop(Failure(InvalidResponse(ChunkTooLarge)));
    }
    if decoded + size > limits.maximumResponseBodyBytes {
      return Stop(Failure(InvalidResponse(DecodedBodyTooLarge)));
    }
    var end := start + size;
    if |b| < end + 2 {
      return Stop(Starved(eof, InChunkData));
    }
    if b[end] != CR || b[end + 1] != LF {
      return Stop(Failure(InvalidResponse(ChunkTerminator)));
    }
    return DataChunk(b[start..end], end + 2);
  }
}
