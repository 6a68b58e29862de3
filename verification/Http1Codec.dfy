/** The codec's exchange with a byte stream: writing a request and re-parsing the growing response buffer. */
module Http1Codec {
  import opened Wrappers
  import opened Bytes
  import opened Http1Model
  import opened Http1Response
  import opened Http1Grammar

  /** What one read of the stream reports. */
  datatype ReadEvent = Data(bytes: Bytes) | Backpressure | Eof | Truncated | Unusable

  /** How the stream answers one write. */
  datatype WriteEvent = Accepted(transferred: nat) | Busy | Broken

  type ReadResult = Http1Result<(Response, Bytes)>

  // -------------------------------------------------------------- the read loop

  /** The response returned from a stream that still holds events, given the loop's variables. */
  function ReadLoop(events: seq<ReadEvent>, wire: Bytes, eof: bool, pressure: nat, requestMethod: Bytes, limits: Limits)
    : ReadResult
    decreases |events|
  {
    match Parse(wire, eof, requestMethod, limits, 0)
    case Failure(error) => Failure(error)
    case Success(Complete(response, consumed)) =>
      if consumed != |wire| then Failure(InvalidResponse(TrailingBytes)) else Success((response, wire))
    case Success(Incomplete) =>
      if eof then Failure(TruncatedResponse(BeforeFramingCompleted))
      else if events == [] then Failure(StreamFailed)
      else match events[0]
        case Data(bytes) =>
          if bytes == [] then Failure(InvalidResponse(DataWithoutBytes))
          else if |wire + bytes| > limits.maximumResponseWireBytes then Failure(InvalidResponse(WireTooLarge))
          else ReadLoop(events[1..], wire + bytes, false, 0, requestMethod, limits)
        case Backpressure =>
          if pressure + 1 > limits.maximumBackpressureEvents then Failure(BackpressureBudgetExceeded)
          else if |wire| > limits.maximumResponseWireBytes then Failure(InvalidResponse(WireTooLarge))
          else ReadLoop(events[1..], wire, false, pressure + 1, requestMethod, limits)
        case Eof =>
          if |wire| > limits.maximumResponseWireBytes then Failure(InvalidResponse(WireTooLarge))
          else ReadLoop(events[1..], wire, true, pressure, requestMethod, limits)
        case Truncated => Failure(TruncatedResponse(ReportedByStream))
        case Unusable => Failure(StreamOutcome)
  }

  // ------------------------------------------------------------------ deliveries

  /** Non-empty pieces and bounded runs of backpressure, up to the end of the stream. */
  predicate Orderly(events: seq<ReadEvent>, pressure: nat, maximum: nat) {
    && events != []
    && match events[0]
      case Data(bytes) => bytes != [] && Orderly(events[1..], 0, maximum)
      case Backpressure => pressure + 1 <= maximum && Orderly(events[1..], pressure + 1, maximum)
      case Eof => true
      case _ => false
  }

  /** The octets delivered before the end of the stream. */
  function Content(events: seq<ReadEvent>): Bytes {
    if events == [] then []
    else match events[0]
      case Data(bytes) => bytes + Content(events[1..])
      case Backpressure => Content(events[1..])
      case _ => []
  }

  /** Some piece ends after exactly k octets. */
  predicate Boundary(events: seq<ReadEvent>, k: int) {
    || k == 0
    || (&& events != []
        && match events[0]
          case Data(bytes) => k >= |bytes| && Boundary(events[1..], k - |bytes|)
          case Backpressure => Boundary(events[1..], k)
          case _ => false)
  }

  lemma {:induction false} EndIsBoundary(events: seq<ReadEvent>)
    ensures Boundary(events, |Content(events)|)
  {
    if events != [] && (events[0].Data? || events[0].Backpressure?) {
      EndIsBoundary(events[1..]);
    }
  }

  // -------------------------------------------------------- what a read returns

  /** The response an orderly delivery of w must return: its first response, if a piece ends right after it. */
  ghost predicate Returns(events: seq<ReadEvent>, wire: Bytes, requestMethod: Bytes, limits: Limits,
                          result: (Response, Bytes))
  {
    var w := wire + Content(events);
    var verdict := Parse(w, true, requestMethod, limits, 0);
    && Completes(verdict)
    && |wire| <= verdict.value.consumed <= |w|
    && verdict.value.consumed <= limits.maximumResponseWireBytes
    && Boundary(events, verdict.value.consumed - |wire|)
    && result == (verdict.value.response, w[..verdict.value.consumed])
  }

  /** A buffer that is still incomplete lies strictly before the end of any response it grows into. */
  lemma IncompleteIsEarly(wire: Bytes, rest: Bytes, requestMethod: Bytes, limits: Limits)
    requires Parse(wire, false, requestMethod, limits, 0) == Success(Incomplete)
    requires Completes(Parse(wire + rest, true, requestMethod, limits, 0))
    ensures var v := Parse(wire + rest, true, requestMethod, limits, 0).value;
      |wire| < v.consumed <= |wire + rest| || (v.consumed == |wire + rest| && rest == [])
  {
    hide Parse;
    var w := wire + rest;
    VerdictLocal(w, true, requestMethod, limits, 0);
    var c := Parse(w, true, requestMethod, limits, 0).value.consumed;
    if c <= |wire| && !Parse(w, true, requestMethod, limits, 0).value.response.framing.ConnectionClose? {
      assert w[..c] + wire[c..] == wire;
      VerdictStable(w[..c], wire[c..], false, requestMethod, limits, 0);
    }
  }

  lemma ReadDecided(events: seq<ReadEvent>, wire: Bytes, pressure: nat, requestMethod: Bytes, limits: Limits,
                    result: (Response, Bytes))
    requires Parse(wire, false, requestMethod, limits, 0) != Success(Incomplete)
    requires |wire| <= limits.maximumResponseWireBytes
    ensures ReadLoop(events, wire, false, pressure, requestMethod, limits) == Success(result)
       <==> Returns(events, wire, requestMethod, limits, result)
  {
    hide Parse;
    var rest := Content(events);
    VerdictStable(wire, rest, true, requestMethod, limits, 0);
    var r := Parse(wire, false, requestMethod, limits, 0);
    if r.Success? {
      assert (wire + rest)[..|wire|] == wire;
    }
  }

  lemma ReadAtEof(events: seq<ReadEvent>, wire: Bytes, pressure: nat, requestMethod: Bytes, limits: Limits,
                  result: (Response, Bytes))
    requires Parse(wire, false, requestMethod, limits, 0) == Success(Incomplete)
    requires |wire| <= limits.maximumResponseWireBytes
    requires events != [] && events[0].Eof?
    ensures ReadLoop(events, wire, false, pressure, requestMethod, limits) == Success(result)
       <==> Returns(events, wire, requestMethod, limits, result)
  {
    hide Parse;
    DecidedAtEof(wire, requestMethod, limits, 0);
    assert wire + Content(events) == wire;
    assert wire[..|wire|] == wire;
    assert ReadLoop(events, wire, false, pressure, requestMethod, limits)
        == ReadLoop(events[1..], wire, true, pressure, requestMethod, limits);
  }

  lemma ReadData(events: seq<ReadEvent>, wire: Bytes, requestMethod: Bytes, limits: Limits, result: (Response, Bytes))
    requires Parse(wire, false, requestMethod, limits, 0) == Success(Incomplete)
    requires events != [] && events[0].Data? && events[0].bytes != []
    ensures Returns(events, wire, requestMethod, limits, result)
       <==> Returns(events[1..], wire + events[0].bytes, requestMethod, limits, result)
    ensures Returns(events, wire, requestMethod, limits, result)
        ==> |wire + events[0].bytes| <= limits.maximumResponseWireBytes
  {
    hide Parse;
    var d, rest := events[0].bytes, Content(events[1..]);
    var w := wire + Content(events);
    assert wire + (d + rest) == wire + d + rest;
    if Completes(Parse(w, true, requestMethod, limits, 0)) {
      IncompleteIsEarly(wire, d + rest, requestMethod, limits);
    }
  }

  /**
   * The read loop, for every orderly delivery: it returns a response exactly when the delivered
   * octets begin with one that fits the wire limit and a piece ends right after it.
   */
  lemma {:induction false} ReadExact(events: seq<ReadEvent>, wire: Bytes, pressure: nat, requestMethod: Bytes,
                                     limits: Limits,
                                     result: (Response, Bytes))
    requires Orderly(events, pressure, limits.maximumBackpressureEvents)
    requires |wire| <= limits.maximumResponseWireBytes
    ensures ReadLoop(events, wire, false, pressure, requestMethod, limits) == Success(result)
       <==> Returns(events, wire, requestMethod, limits, result)
    decreases |events|
  {
    hide Parse;
    if Parse(wire, false, requestMethod, limits, 0) != Success(Incomplete) {
      ReadDecided(events, wire, pressure, requestMethod, limits, result);
    } else {
      match events[0]
      case Data(d) =>
        ReadData(events, wire, requestMethod, limits, result);
        if |wire + d| <= limits.maximumResponseWireBytes {
          ReadExact(events[1..], wire + d, 0, requestMethod, limits, result);
        }
      case Backpressure =>
        ReadExact(events[1..], wire, pressure + 1, requestMethod, limits, result);
      case Eof =>
        ReadAtEof(events, wire, pressure, requestMethod, limits, result);
    }
  }

  /** A wire that is exactly one response is returned whole, however it was cut into pieces. */
  lemma FragmentationIndependent(events: seq<ReadEvent>, requestMethod: Bytes, limits: Limits)
    requires Orderly(events, 0, limits.maximumBackpressureEvents)
    requires Completes(Parse(Content(events), true, requestMethod, limits, 0))
    requires Parse(Content(events), true, requestMethod, limits, 0).value.consumed == |Content(events)|
    requires |Content(events)| <= limits.maximumResponseWireBytes
    ensures ReadLoop(events, [], false, 0, requestMethod, limits)
         == Success((Parse(Content(events), true, requestMethod, limits, 0).value.response, Content(events)))
  {
    hide Parse;
    var w := Content(events);
    assert [] + w == w && w[..|w|] == w;
    EndIsBoundary(events);
    ReadExact(events, [], 0, requestMethod, limits, (Parse(w, true, requestMethod, limits, 0).value.response, w));
  }

  /** A wire that no complete response begins is rejected, however it was cut into pieces. */
  lemma NoResponseIsReturned(events: seq<ReadEvent>, requestMethod: Bytes, limits: Limits)
    requires Orderly(events, 0, limits.maximumBackpressureEvents)
    requires !Completes(Parse(Content(events), true, requestMethod, limits, 0))
    ensures ReadLoop(events, [], false, 0, requestMethod, limits).Failure?
  {
    hide Parse;
    assert [] + Content(events) == Content(events);
    var r := ReadLoop(events, [], false, 0, requestMethod, limits);
    if r.Success? {
      ReadExact(events, [], 0, requestMethod, limits, r.value);
    }
  }

  /**
   * Octets after the response: two deliveries of the same octets can differ, and they do exactly
   * when a piece of one and no piece of the other ends right after the response.
   */
  lemma TrailingOctetsDependOnPieces(one: seq<ReadEvent>, two: seq<ReadEvent>, requestMethod: Bytes, limits: Limits)
    requires Orderly(one, 0, limits.maximumBackpressureEvents) && Orderly(two, 0, limits.maximumBackpressureEvents)
    requires Content(one) == Content(two)
    requires Completes(Parse(Content(one), true, requestMethod, limits, 0))
    requires Parse(Content(one), true, requestMethod, limits, 0).value.consumed <= limits.maximumResponseWireBytes
    ensures (ReadLoop(one, [], false, 0, requestMethod, limits).Success?
             <==> ReadLoop(two, [], false, 0, requestMethod, limits).Success?)
       <==> (Boundary(one, Parse(Content(one), true, requestMethod, limits, 0).value.consumed)
             <==> Boundary(two, Parse(Content(one), true, requestMethod, limits, 0).value.consumed))
  {
    hide Parse;
    SucceedsAtBoundary(one, requestMethod, limits);
    SucceedsAtBoundary(two, requestMethod, limits);
  }

  /** Two deliveries of the same octets that do differ, for every complete response and everything after it. */
  lemma TrailingOctetsDiffer(w: Bytes, t: Bytes, requestMethod: Bytes, limits: Limits)
    requires Completes(Parse(w, false, requestMethod, limits, 0))
    requires Parse(w, false, requestMethod, limits, 0).value.consumed == |w| <= limits.maximumResponseWireBytes
    requires t != []
    ensures var whole, cut := [Data(w + t), Eof], [Data(w), Data(t), Eof];
      && Content(whole) == Content(cut) == w + t
      && ReadLoop(cut, [], false, 0, requestMethod, limits).Success?
      && ReadLoop(whole, [], false, 0, requestMethod, limits).Failure?
  {
    hide Parse, ReadLoop;
    var whole, cut := [Data(w + t), Eof], [Data(w), Data(t), Eof];
    assert whole[1..] == [Eof] && cut[1..] == [Data(t), Eof] && cut[1..][1..] == [Eof];
    assert Content([Eof]) == [] && t + [] == t && (w + t) + [] == w + t;
    assert Orderly([Eof], 0, limits.maximumBackpressureEvents);
    assert Orderly(cut[1..], 0, limits.maximumBackpressureEvents);
    assert Content(cut[1..]) == t;
    if w == [] {
      NothingIncomplete(requestMethod, limits, 0);
    }
    VerdictStable(w, t, true, requestMethod, limits, 0);
    assert Boundary(cut[1..], 0);
    SucceedsAtBoundary(cut, requestMethod, limits);
    SucceedsAtBoundary(whole, requestMethod, limits);
  }

  /** One such wire: a response without content, and any octets after it. */
  lemma NoContentThenMore(t: Bytes, requestMethod: Bytes)
    requires t != []
    ensures var w := NO_CONTENT + CRLF + CRLF;
      && ReadLoop([Data(w), Data(t), Eof], [], false, 0, requestMethod, DEFAULT_LIMITS).Success?
      && ReadLoop([Data(w + t), Eof], [], false, 0, requestMethod, DEFAULT_LIMITS).Failure?
  {
    hide Parse, ReadLoop;
    NoContentCompletes(requestMethod);
    TrailingOctetsDiffer(NO_CONTENT + CRLF + CRLF, t, requestMethod, DEFAULT_LIMITS);
  }

  lemma SucceedsAtBoundary(events: seq<ReadEvent>, requestMethod: Bytes, limits: Limits)
    requires Orderly(events, 0, limits.maximumBackpressureEvents)
    requires Completes(Parse(Content(events), true, requestMethod, limits, 0))
    requires Parse(Content(events), true, requestMethod, limits, 0).value.consumed <= limits.maximumResponseWireBytes
    ensures ReadLoop(events, [], false, 0, requestMethod, limits).Success?
       <==> Boundary(events, Parse(Content(events), true, requestMethod, limits, 0).value.consumed)
  {
    hide Parse;
    var w := Content(events);
    assert [] + w == w;
    VerdictLocal(w, true, requestMethod, limits, 0);
    var v := Parse(w, true, requestMethod, limits, 0).value;
    ReadExact(events, [], 0, requestMethod, limits, (v.response, w[..v.consumed]));
    var r := ReadLoop(events, [], false, 0, requestMethod, limits);
    if r.Success? {
      ReadExact(events, [], 0, requestMethod, limits, r.value);
    }
  }

  /** Whatever the stream does, a returned response is the exact parse of the returned wire, within the limits. */
  lemma {:induction false} ReadSound(events: seq<ReadEvent>, wire: Bytes, eof: bool, pressure: nat,
                                     requestMethod: Bytes, limits: Limits)
    requires |wire| <= limits.maximumResponseWireBytes
    requires ReadLoop(events, wire, eof, pressure, requestMethod, limits).Success?
    ensures var (response, v) := ReadLoop(events, wire, eof, pressure, requestMethod, limits).value;
      && |v| <= limits.maximumResponseWireBytes
      && Parse(v, true, requestMethod, limits, 0) == Success(Complete(response, |v|))
      && Guaranteed(response, true, requestMethod, limits)
    decreases |events|
  {
    hide Parse, Guaranteed;
    var verdict := Parse(wire, eof, requestMethod, limits, 0);
    if Completes(verdict) {
      if !eof {
        VerdictStable(wire, [], true, requestMethod, limits, 0);
        assert wire + [] == wire;
      }
      CompleteIsGuaranteed(wire, true, requestMethod, limits, 0);
    } else {
      match events[0]
      case Data(d) => ReadSound(events[1..], wire + d, false, 0, requestMethod, limits);
      case Backpressure => ReadSound(events[1..], wire, false, pressure + 1, requestMethod, limits);
      case Eof => ReadSound(events[1..], wire, true, pressure, requestMethod, limits);
    }
  }

  // -------------------------------------------------------------- the write loop

  /** How a write ends: its result, what the peer received, and the answers not yet used. */
  datatype Writing = Writing(result: Http1Result<()>, sent: Bytes, unused: seq<WriteEvent>)

  /** Writes bytes to a stream that will answer in this way, after pressure refusals in a row. */
  function WriteLoop(answers: seq<WriteEvent>, bytes: Bytes, pressure: nat, limits: Limits): Writing
    decreases |answers|
  {
    if bytes == [] then Writing(Success(()), [], answers)
    else if answers == [] then Writing(Failure(StreamFailed), [], [])
    else match answers[0]
      case Accepted(k) =>
        if k == 0 || k > Min(|bytes|, limits.ioOperationBytes) then
          Writing(Failure(InvalidRequest(WriteLengthInvalid)), [], answers[1..])
        else
          var rest := WriteLoop(answers[1..], bytes[k..], 0, limits);
          Preceding(bytes[..k], rest)
      case Busy =>
        if pressure + 1 > limits.maximumBackpressureEvents then Writing(Failure(BackpressureBudgetExceeded), [],
            answers[1..])
        else WriteLoop(answers[1..], bytes, pressure + 1, limits)
      case Broken => Writing(Failure(StreamOutcome), [], answers[1..])
  }

  function Preceding(sent: Bytes, w: Writing): Writing {
    w.(sent := sent + w.sent)
  }

  lemma PrecedingNothing(bytes: Bytes, w: Writing)
    ensures bytes[..0] == [] && bytes[0..] == bytes && Preceding([], w) == w
  {
    assert [] + w.sent == w.sent;
  }

  lemma PrecedingEnd(sent: Bytes, w: Writing)
    ensures w.sent == [] ==> Preceding(sent, w) == Writing(w.result, sent, w.unused)
  {
    if w.sent == [] {
      assert sent + w.sent == sent;
    }
  }

  lemma WriteLoopDone(answers: seq<WriteEvent>, bytes: Bytes, pressure: nat, limits: Limits)
    requires bytes == []
    ensures WriteLoop(answers, bytes, pressure, limits) == Writing(Success(()), [], answers)
  {
  }

  /** One answer of the stream, as the recursive write sees it. */
  lemma WriteLoopStep(answers: seq<WriteEvent>, bytes: Bytes, pressure: nat, limits: Limits)
    requires bytes != []
    ensures var w := WriteLoop(answers, bytes, pressure, limits);
      if answers == [] then w == Writing(Failure(StreamFailed), [], [])
      else
        match answers[0]
        case Accepted(k) =>
          if k == 0 || k > Min(|bytes|, limits.ioOperationBytes)
          then w == Writing(Failure(InvalidRequest(WriteLengthInvalid)), [], answers[1..])
          else w == Preceding(bytes[..k], WriteLoop(answers[1..], bytes[k..], 0, limits))
        case Busy =>
          if pressure + 1 > limits.maximumBackpressureEvents
          then w == Writing(Failure(BackpressureBudgetExceeded), [], answers[1..])
          else w == WriteLoop(answers[1..], bytes, pressure + 1, limits)
        case Broken => w == Writing(Failure(StreamOutcome), [], answers[1..])
  {
  }

  lemma PrecedingMore(bytes: Bytes, offset: nat, size: nat, k: nat, w: Writing)
    requires k <= size && offset + size <= |bytes|
    ensures bytes[offset..][k..] == bytes[offset + k..]
    ensures bytes[..offset] + bytes[offset..offset + size][..k] == bytes[..offset + k]
    ensures Preceding(bytes[..offset], Preceding(bytes[offset..][..k], w)) == Preceding(bytes[..offset + k], w)
  {
    assert bytes[..offset] + (bytes[offset..][..k] + w.sent) == bytes[..offset + k] + w.sent;
  }

  /** The octets that answer x takes over, and the refusals in a row after it. */
  function Taken(x: WriteEvent): nat {
    if x.Accepted? then x.transferred else 0
  }

  function After(x: WriteEvent, pressure: nat): nat {
    if x.Busy? then pressure + 1 else 0
  }

  /** The octets that these answers take over. */
  function Transferred(answers: seq<WriteEvent>): nat {
    if answers == [] then 0
    else Transferred(answers[..|answers| - 1]) + Taken(Last(answers))
  }

  /** The refusals in a row at the end of these answers, when pressure came before them. */
  function Refusals(answers: seq<WriteEvent>, pressure: nat): nat {
    if answers == [] then pressure
    else if Last(answers).Busy? then Refusals(answers[..|answers| - 1], pressure) + 1
    else 0
  }

  function Last(answers: seq<WriteEvent>): WriteEvent
    requires answers != []
  {
    answers[|answers| - 1]
  }

  /** Answer i takes over some of what is offered to it, or is one of few enough refusals in a row. */
  predicate Bearable(answers: seq<WriteEvent>, i: nat, n: nat, pressure: nat, limits: Limits)
    requires i < |answers|
  {
    match answers[i]
    case Accepted(k) => 0 < k <= limits.ioOperationBytes && Transferred(answers[..i]) + k <= n
    case Busy => Refusals(answers[..i + 1], pressure) <= limits.maximumBackpressureEvents
    case Broken => false
  }

  /** These answers take over exactly n octets, each of them bearable. */
  ghost predicate TakesOver(answers: seq<WriteEvent>, n: nat, pressure: nat, limits: Limits) {
    Transferred(answers) == n && forall i :: 0 <= i < |answers| ==> Bearable(answers, i, n, pressure, limits)
  }

  lemma {:induction false} TransferredCons(x: WriteEvent, a: seq<WriteEvent>)
    ensures Transferred([x] + a) == Transferred(a) + Taken(x)
  {
    var whole := [x] + a;
    if a == [] {
      assert whole[..0] == [];
    } else {
      assert whole[..|whole| - 1] == [x] + a[..|a| - 1];
      TransferredCons(x, a[..|a| - 1]);
    }
  }

  lemma {:induction false} RefusalsCons(x: WriteEvent, a: seq<WriteEvent>, pressure: nat)
    ensures Refusals([x] + a, pressure) == Refusals(a, After(x, pressure))
  {
    var whole := [x] + a;
    if a == [] {
      assert whole[..0] == [];
    } else {
      assert whole[..|whole| - 1] == [x] + a[..|a| - 1];
      RefusalsCons(x, a[..|a| - 1], pressure);
    }
  }

  lemma BearableCons(x: WriteEvent, a: seq<WriteEvent>, i: nat, n: nat, pressure: nat, limits: Limits)
    requires i < |a| && Taken(x) <= n
    ensures Bearable([x] + a, i + 1, n, pressure, limits) <==> Bearable(a, i, n - Taken(x), After(x, pressure), limits)
  {
    hide Transferred, Refusals;
    var whole := [x] + a;
    assert whole[..i + 1] == [x] + a[..i] && whole[..i + 2] == [x] + a[..i + 1];
    TransferredCons(x, a[..i]);
    RefusalsCons(x, a[..i + 1], pressure);
  }

  lemma BearableFirst(x: WriteEvent, a: seq<WriteEvent>, n: nat, pressure: nat, limits: Limits)
    ensures Bearable([x] + a, 0, n, pressure, limits)
       <==> (match x
             case Accepted(k) => 0 < k <= limits.ioOperationBytes && k <= n
             case Busy => pressure + 1 <= limits.maximumBackpressureEvents
             case Broken => false)
  {
    hide Refusals;
    var whole := [x] + a;
    assert whole[..0] == [] && whole[..1] == [x] + [];
    RefusalsCons(x, [], pressure);
    NoRefusals(pressure + 1);
  }

  lemma NoRefusals(pressure: nat)
    ensures Refusals([], pressure) == pressure
  {
  }

  /** Taking over n octets begins with a bearable answer and goes on with the rest. */
  lemma TakesOverCons(x: WriteEvent, a: seq<WriteEvent>, n: nat, pressure: nat, limits: Limits)
    ensures TakesOver([x] + a, n, pressure, limits)
       <==> && Bearable([x] + a, 0, n, pressure, limits) && Taken(x) <= n
            && TakesOver(a, n - Taken(x), After(x, pressure), limits)
  {
    hide Transferred, Refusals, Bearable;
    var whole := [x] + a;
    TransferredCons(x, a);
    if Taken(x) <= n {
      var m, next := n - Taken(x), After(x, pressure);
      if Bearable(whole, 0, n, pressure, limits) && TakesOver(a, m, next, limits) {
        forall i | 0 <= i < |whole|
          ensures Bearable(whole, i, n, pressure, limits)
        {
          if i > 0 {
            BearableCons(x, a, i - 1, n, pressure, limits);
          }
        }
      }
      if TakesOver(whole, n, pressure, limits) {
        assert Bearable(whole, 0, n, pressure, limits);
        forall i | 0 <= i < |a|
          ensures Bearable(a, i, m, next, limits)
        {
          assert Bearable(whole, i + 1, n, pressure, limits);
          BearableCons(x, a, i, n, pressure, limits);
        }
      }
    }
  }

  /** A write succeeds exactly when the first answers take over all octets within the backpressure budget. */
  lemma {:induction false} WriteExact(answers: seq<WriteEvent>, bytes: Bytes, pressure: nat, limits: Limits)
    ensures WriteLoop(answers, bytes, pressure, limits).result.Success?
       <==> exists k :: 0 <= k <= |answers| && TakesOver(answers[..k], |bytes|, pressure, limits)
    decreases |answers|
  {
    hide TakesOver, Bearable;
    if bytes == [] {
      NothingTaken(pressure, limits);
      assert answers[..0] == [];
    } else if answers == [] {
      assert forall k :: 0 <= k <= |answers| ==> answers[..k] == [];
      NothingTakenOver(|bytes|, pressure, limits);
    } else {
      var x, rest := answers[0], answers[1..];
      var n := |bytes|;
      if WriteLoop(answers, bytes, pressure, limits).result.Success? {
        WriteExact(rest, bytes[Taken(x)..], After(x, pressure), limits);
        var k :| 0 <= k <= |rest| && TakesOver(rest[..k], n - Taken(x), After(x, pressure), limits);
        assert answers[..k + 1] == [x] + rest[..k];
        BearableFirst(x, rest[..k], n, pressure, limits);
        TakesOverCons(x, rest[..k], n, pressure, limits);
      }
      if k :| 0 <= k <= |answers| && TakesOver(answers[..k], n, pressure, limits) {
        NothingTakenOver(n, pressure, limits);
        assert k > 0 && answers[..k] == [x] + rest[..k - 1];
        BearableFirst(x, rest[..k - 1], n, pressure, limits);
        TakesOverCons(x, rest[..k - 1], n, pressure, limits);
        WriteExact(rest, bytes[Taken(x)..], After(x, pressure), limits);
      }
    }
  }

  lemma NothingTaken(pressure: nat, limits: Limits)
    ensures TakesOver([], 0, pressure, limits)
  {
  }

  lemma NothingTakenOver(n: nat, pressure: nat, limits: Limits)
    ensures n > 0 ==> !TakesOver([], n, pressure, limits)
  {
  }

  /** The peer receives the octets in order: all of them on success, a proper prefix of them on any failure. */
  lemma {:induction false} WriteSendsPrefix(answers: seq<WriteEvent>, bytes: Bytes, pressure: nat, limits: Limits)
    ensures var w := WriteLoop(answers, bytes, pressure, limits);
      && w.sent <= bytes
      && (w.result.Success? <==> w.sent == bytes)
    decreases |answers|
  {
    if bytes != [] && answers != [] {
      match answers[0]
      case Accepted(k) =>
        if 0 < k <= Min(|bytes|, limits.ioOperationBytes) {
          WriteSendsPrefix(answers[1..], bytes[k..], 0, limits);
          assert bytes == bytes[..k] + bytes[k..];
        }
      case Busy =>
        if pressure + 1 <= limits.maximumBackpressureEvents {
          WriteSendsPrefix(answers[1..], bytes, pressure + 1, limits);
        }
      case Broken =>
    }
  }

  // ------------------------------------------------------------------- the codec

  /** A stream seen through the reports it will make; sent is what the peer has received. */
  class ByteStream {
    var incoming: seq<ReadEvent>
    var answers: seq<WriteEvent>
    var sent: Bytes

    constructor (incoming: seq<ReadEvent>, answers: seq<WriteEvent>)
      ensures this.incoming == incoming && this.answers == answers && sent == []
    {
      this.incoming, this.answers, sent := incoming, answers, [];
    }

    method Read() returns (event: Option<ReadEvent>)
      modifies this`incoming
      ensures old(incoming) == [] ==> event.None? && incoming == []
      ensures old(incoming) != [] ==> event == Some(old(incoming)[0]) && incoming == old(incoming)[1..]
    {
      if incoming == [] {
        return None;
      }
      event := Some(incoming[0]);
      incoming := incoming[1..];
    }

    method Write(chunk: Bytes) returns (event: Option<WriteEvent>)
      modifies this`answers, this`sent
      ensures old(answers) == [] ==> event.None? && answers == [] && sent == old(sent)
      ensures old(answers) != [] ==> event == Some(old(answers)[0]) && answers == old(answers)[1..]
      ensures event.Some? && event.value.Accepted? && event.value.transferred <= |chunk| ==>
                sent == old(sent) + chunk[..event.value.transferred]
      ensures event.Some? && !(event.value.Accepted? && event.value.transferred <= |chunk|) ==> sent == old(sent)
    {
      if answers == [] {
        return None;
      }
      event := Some(answers[0]);
      answers := answers[1..];
      if event.value.Accepted? && event.value.transferred <= |chunk| {
        sent := sent + chunk[..event.value.transferred];
      }
    }
  }

  class Codec {
    const stream: ByteStream
    const limits: ValidLimits

    constructor (stream: ByteStream, limits: ValidLimits)
      ensures this.stream == stream && this.limits == limits
    {
      this.stream, this.limits := stream, limits;
    }

    /** The loop's result, what the peer receives and the answers left over are those of the recursive write. */
    method WriteAll(bytes: Bytes) returns (r: Http1Result<()>)
      modifies stream`answers, stream`sent
      ensures var w := WriteLoop(old(stream.answers), bytes, 0, limits);
        r == w.result && stream.sent == old(stream.sent) + w.sent && stream.answers == w.unused
      ensures r.Success? <==> stream.sent == old(stream.sent) + bytes
      ensures r.Success? <==>
                exists k :: 0 <= k <= |old(stream.answers)| && TakesOver(old(stream.answers)[..k], |bytes|, 0, limits)
    {
      hide WriteLoop, Preceding, TakesOver;
      WriteExact(stream.answers, bytes, 0, limits);
      ghost var whole := WriteLoop(stream.answers, bytes, 0, limits);
      WriteSendsPrefix(stream.answers, bytes, 0, limits);
      var offset, pressure := 0, 0;
      PrecedingNothing(bytes, whole);
      while offset < |bytes|
        invariant 0 <= offset <= |bytes|
        invariant stream.sent == old(stream.sent) + bytes[..offset]
        invariant whole == Preceding(bytes[..offset], WriteLoop(stream.answers, bytes[offset..], pressure, limits))
        decreases |stream.answers|
      {
        var size := Min(|bytes| - offset, limits.ioOperationBytes);
        WriteLoopStep(stream.answers, bytes[offset..], pressure, limits);
        PrecedingEnd(bytes[..offset], WriteLoop(stream.answers, bytes[offset..], pressure, limits));
        var event := stream.Write(bytes[offset..offset + size]);
        if event.None? {
          return Failure(StreamFailed);
        }
        match event.value
        case Accepted(transferred) =>
          if transferred == 0 || transferred > size {
            return Failure(InvalidRequest(WriteLengthInvalid));
          }
          ghost var rest := WriteLoop(stream.answers, bytes[offset + transferred..], 0, limits);
          PrecedingMore(bytes, offset, size, transferred, rest);
          offset, pressure := offset + transferred, 0;
        case Busy =>
          pressure := pressure + 1;
          if pressure > limits.maximumBackpressureEvents {
            return Failure(BackpressureBudgetExceeded);
          }
        case Broken => return Failure(StreamOutcome);
      }
      WriteLoopDone(stream.answers, bytes[offset..], pressure, limits);
      PrecedingEnd(bytes[..offset], WriteLoop(stream.answers, bytes[offset..], pressure, limits));
      r := Success(());
    }

    method ReadResponse(requestMethod: Bytes) returns (r: ReadResult)
      modifies stream`incoming
      ensures r == ReadLoop(old(stream.incoming), [], false, 0, requestMethod, limits)
    {
      hide Parse;
      var wire, eof, pressure := [], false, 0;
      ghost var whole := ReadLoop(stream.incoming, [], false, 0, requestMethod, limits);
      while true
        invariant whole == ReadLoop(stream.incoming, wire, eof, pressure, requestMethod, limits)
        decreases |stream.incoming|
      {
        var verdict := ParseResponse(wire, eof, requestMethod, limits);
        if verdict.Failure? {
          return Failure(verdict.error);
        }
        if verdict.value.Complete? {
          if verdict.value.consumed != |wire| {
            return Failure(InvalidResponse(TrailingBytes));
          }
          return Success((verdict.value.response, wire));
        }
        if eof {
          return Failure(TruncatedResponse(BeforeFramingCompleted));
        }
        ghost var ahead := stream.incoming;
        var event := stream.Read();
        assert whole == ReadLoop(ahead, wire, false, pressure, requestMethod, limits);
        if event.None? {
          return Failure(StreamFailed);
        }
        match event.value {
          case Data(bytes) =>
            if bytes == [] {
              return Failure(InvalidResponse(DataWithoutBytes));
            }
            wire, pressure := wire + bytes, 0;
          case Backpressure =>
            pressure := pressure + 1;
            if pressure > limits.maximumBackpressureEvents {
              return Failure(BackpressureBudgetExceeded);
            }
          case Eof => eof := true;
          case Truncated => return Failure(TruncatedResponse(ReportedByStream));
          case Unusable => return Failure(StreamOutcome);
        }
        if |wire| > limits.maximumResponseWireBytes {
          return Failure(InvalidResponse(WireTooLarge));
        }
      }
    }
  }
}
