/** Scanning for CRLF, cutting a block into lines, and trimming optional white space. */
module Http1Lines {
  import opened Wrappers
  import opened Bytes

  predicate CrlfAt(b: Bytes, i: int) {
    0 <= i && i + 1 < |b| && b[i] == CR && b[i + 1] == LF
  }

  predicate DoubleCrlfAt(b: Bytes, i: int) {
    CrlfAt(b, i) && CrlfAt(b, i + 2)
  }

  function CrlfFrom(b: Bytes, i: nat): (r: Option<nat>)
    requires i <= |b|
    requires forall j :: 0 <= j < i ==> !CrlfAt(b, j)
    ensures r.Some? ==> CrlfAt(b, r.value) && forall j :: 0 <= j < r.value ==> !CrlfAt(b, j)
    ensures r.None? ==> forall j :: !CrlfAt(b, j)
    decreases |b| - i
  {
    if i == |b| then None
    else if CrlfAt(b, i) then Some(i)
    else CrlfFrom(b, i + 1)
  }

  /** The position of the first CRLF. */
  function FindCrlf(b: Bytes): (r: Option<nat>)
    ensures r.Some? ==> CrlfAt(b, r.value) && forall j :: 0 <= j < r.value ==> !CrlfAt(b, j)
    ensures r.None? ==> forall j :: !CrlfAt(b, j)
  {
    CrlfFrom(b, 0)
  }

  function DoubleCrlfFrom(b: Bytes, i: nat): (r: Option<nat>)
    requires i <= |b|
    requires forall j :: 0 <= j < i ==> !DoubleCrlfAt(b, j)
    ensures r.Some? ==> DoubleCrlfAt(b, r.value) && forall j :: 0 <= j < r.value ==> !DoubleCrlfAt(b, j)
    ensures r.None? ==> forall j :: !DoubleCrlfAt(b, j)
    decreases |b| - i
  {
    if i == |b| then None
    else if DoubleCrlfAt(b, i) then Some(i)
    else DoubleCrlfFrom(b, i + 1)
  }

  /** The position just past the first CRLFCRLF. */
  function FindDoubleCrlf(b: Bytes): (r: Option<nat>)
    ensures r.Some? ==>
              && 4 <= r.value <= |b|
              && DoubleCrlfAt(b, r.value - 4)
              && forall j :: 0 <= j < r.value - 4 ==> !DoubleCrlfAt(b, j)
    ensures r.None? ==> forall j :: !DoubleCrlfAt(b, j)
  {
    match DoubleCrlfFrom(b, 0)
    case None => None
    case Some(i) => Some(i + 4)
  }

  // ---------------------------------------------------------------- extension

  /** A CRLF that has been found stays the first one when more octets arrive. */
  lemma FindCrlfExtends(b: Bytes, s: Bytes)
    ensures FindCrlf(b).Some? ==> FindCrlf(b + s) == FindCrlf(b)
    ensures FindCrlf(b).None? && FindCrlf(b + s).Some? ==> FindCrlf(b + s).value + 1 >= |b|
  {
    assert forall j :: j + 1 < |b| ==> (CrlfAt(b + s, j) <==> CrlfAt(b, j));
  }

  lemma FindDoubleCrlfExtends(b: Bytes, s: Bytes)
    ensures FindDoubleCrlf(b).Some? ==> FindDoubleCrlf(b + s) == FindDoubleCrlf(b)
    ensures FindDoubleCrlf(b).None? && FindDoubleCrlf(b + s).Some? ==> FindDoubleCrlf(b + s).value > |b|
  {
    assert forall j :: j + 3 < |b| ==> (DoubleCrlfAt(b + s, j) <==> DoubleCrlfAt(b, j));
  }

  // -------------------------------------------------------------------- lines

  /** Lines separated by CRLF; a block without CRLF is one line. */
  function SplitCrlf(b: Bytes): (lines: seq<Bytes>)
    ensures |lines| > 0
    decreases |b|
  {
    match FindCrlf(b)
    case None => [b]
    case Some(i) => [b[..i]] + SplitCrlf(b[i + 2..])
  }

  function JoinCrlf(lines: seq<Bytes>): Bytes
    requires |lines| > 0
  {
    if |lines| == 1 then lines[0]
    else lines[0] + CRLF + JoinCrlf(lines[1..])
  }

  predicate Clean(line: Bytes) {
    forall i :: 0 <= i < |line| ==> line[i] != CR && line[i] != LF
  }

  predicate AllClean(lines: seq<Bytes>) {
    forall i :: 0 <= i < |lines| ==> Clean(lines[i])
  }

  predicate NoneEmpty(lines: seq<Bytes>) {
    forall i :: 0 <= i < |lines| ==> lines[i] != []
  }

  /** Cutting a block loses nothing. */
  lemma {:induction false} JoinOfSplit(b: Bytes)
    ensures JoinCrlf(SplitCrlf(b)) == b
    decreases |b|
  {
    match FindCrlf(b)
    case None =>
    case Some(i) =>
      JoinOfSplit(b[i + 2..]);
      assert SplitCrlf(b)[1..] == SplitCrlf(b[i + 2..]);
      assert b == b[..i] + CRLF + b[i + 2..];
  }

  lemma FirstCrlfAfterCleanLine(line: Bytes, rest: Bytes)
    requires Clean(line)
    ensures FindCrlf(line + CRLF + rest) == Some(|line|)
  {
    var b := line + CRLF + rest;
    assert CrlfAt(b, |line|);
    assert forall j :: 0 <= j < |line| ==> b[j] == line[j];
  }

  /** Joining lines that hold neither CR nor LF is undone by cutting. */
  lemma {:induction false} SplitOfJoin(lines: seq<Bytes>)
    requires |lines| > 0 && AllClean(lines)
    ensures SplitCrlf(JoinCrlf(lines)) == lines
  {
    if |lines| == 1 {
      assert forall j :: !CrlfAt(lines[0], j);
    } else {
      var rest := JoinCrlf(lines[1..]);
      FirstCrlfAfterCleanLine(lines[0], rest);
      var b := lines[0] + CRLF + rest;
      assert b[..|lines[0]|] == lines[0] && b[|lines[0]| + 2..] == rest;
      SplitOfJoin(lines[1..]);
    }
  }

  /** A block of non-empty clean lines ends at its first CRLFCRLF, whatever octets follow. */
  lemma {:induction false} NoEarlyDoubleCrlf(lines: seq<Bytes>, tail: Bytes)
    requires |lines| > 0 && AllClean(lines) && NoneEmpty(lines)
    ensures forall j :: 0 <= j < |JoinCrlf(lines)| ==> !DoubleCrlfAt(JoinCrlf(lines) + CRLF + CRLF + tail, j)
  {
    var n := |lines[0]|;
    var w := JoinCrlf(lines) + CRLF + CRLF + tail;
    assert w[..n] == lines[0];
    if |lines| > 1 {
      var rest := JoinCrlf(lines[1..]) + CRLF + CRLF + tail;
      assert w == lines[0] + CRLF + rest;
      NoEarlyDoubleCrlf(lines[1..], tail);
      assert rest[0] == lines[1][0];
      assert forall j :: n + 2 <= j ==> (DoubleCrlfAt(w, j) <==> DoubleCrlfAt(rest, j - n - 2));
    }
  }

  lemma BlockEndsAtDoubleCrlf(lines: seq<Bytes>, tail: Bytes)
    requires |lines| > 0 && AllClean(lines) && NoneEmpty(lines)
    ensures FindDoubleCrlf(JoinCrlf(lines) + CRLF + CRLF + tail) == Some(|JoinCrlf(lines)| + 4)
  {
    NoEarlyDoubleCrlf(lines, tail);
    assert DoubleCrlfAt(JoinCrlf(lines) + CRLF + CRLF + tail, |JoinCrlf(lines)|);
  }

  // ------------------------------------------------------------- bare CR / LF

  datatype LineFault = BareLf | BareCr

  predicate BareLfAt(b: Bytes, i: nat)
    requires i < |b|
  {
    b[i] == LF && (i == 0 || b[i - 1] != CR)
  }

  predicate BareCrAt(b: Bytes, i: nat)
    requires i < |b|
  {
    b[i] == CR && (i + 1 >= |b| || b[i + 1] != LF)
  }

  /** Every CR is followed by LF and every LF preceded by CR. */
  predicate PairedCrlf(b: Bytes) {
    forall i :: 0 <= i < |b| ==> !BareLfAt(b, i) && !BareCrAt(b, i)
  }

  function LineFaultFrom(b: Bytes, i: nat): (r: Option<LineFault>)
    requires i <= |b|
    ensures r.None? <==> forall j :: i <= j < |b| ==> !BareLfAt(b, j) && !BareCrAt(b, j)
    decreases |b| - i
  {
    if i == |b| then None
    else if BareLfAt(b, i) then Some(BareLf)
    else if BareCrAt(b, i) then Some(BareCr)
    else LineFaultFrom(b, i + 1)
  }

  /** The lines cut from a block with no bare CR or LF hold neither. */
  lemma {:induction false} SplitOfPairedIsClean(b: Bytes)
    requires PairedCrlf(b)
    ensures AllClean(SplitCrlf(b))
    decreases |b|
  {
    match FindCrlf(b)
    case None =>
      forall i | 0 <= i < |b|
        ensures b[i] != CR && b[i] != LF
      {
        assert !BareLfAt(b, i) && !BareCrAt(b, i);
        assert !CrlfAt(b, i) && !CrlfAt(b, i - 1);
      }
    case Some(k) =>
      forall i | 0 <= i < k
        ensures b[i] != CR && b[i] != LF
      {
        assert !BareLfAt(b, i) && !BareCrAt(b, i);
        assert !CrlfAt(b, i) && !CrlfAt(b, i - 1);
      }
      var rest := b[k + 2..];
      forall i | 0 <= i < |rest|
        ensures !BareLfAt(rest, i) && !BareCrAt(rest, i)
      {
        assert !BareLfAt(b, i + k + 2) && !BareCrAt(b, i + k + 2);
        assert !CrlfAt(b, k + 1);
      }
      SplitOfPairedIsClean(rest);
  }

  /** The content of a paired block that ends in CRLFCRLF is itself paired. */
  lemma PairedBlockContent(block: Bytes)
    requires PairedCrlf(block) && |block| >= 4 && DoubleCrlfAt(block, |block| - 4)
    ensures PairedCrlf(block[..|block| - 4])
  {
    var c := block[..|block| - 4];
    forall i | 0 <= i < |c|
      ensures !BareLfAt(c, i) && !BareCrAt(c, i)
    {
      assert !BareLfAt(block, i) && !BareCrAt(block, i);
    }
  }

  /** Lines without CR and LF, joined and closed by CRLFCRLF, form a paired block. */
  lemma {:induction false} JoinedBlockIsPaired(lines: seq<Bytes>)
    requires |lines| > 0 && AllClean(lines)
    ensures PairedCrlf(JoinCrlf(lines) + CRLF + CRLF)
  {
    var n := |lines[0]|;
    var b := JoinCrlf(lines) + CRLF + CRLF;
    if |lines| == 1 {
      assert b[..n] == lines[0];
    } else {
      var rest := JoinCrlf(lines[1..]) + CRLF + CRLF;
      JoinedBlockIsPaired(lines[1..]);
      assert b == lines[0] + CRLF + rest;
      forall i | 0 <= i < |b|
        ensures !BareLfAt(b, i) && !BareCrAt(b, i)
      {
        if i >= n + 2 {
          assert !BareLfAt(rest, i - n - 2) && !BareCrAt(rest, i - n - 2);
        } else if i < n {
          assert b[i] == lines[0][i];
        }
      }
    }
  }

  // ------------------------------------------------- optional white space

  predicate IsOws(c: u8) {
    c == SPACE || c == TAB
  }

  predicate AllOws(b: Bytes) {
    forall i :: 0 <= i < |b| ==> IsOws(b[i])
  }

  function TrimStart(b: Bytes): (r: Bytes)
    ensures r == [] || !IsOws(r[0])
  {
    if b != [] && IsOws(b[0]) then TrimStart(b[1..]) else b
  }

  function TrimEnd(b: Bytes): (r: Bytes)
    ensures r == [] || !IsOws(r[|r| - 1])
    ensures r <= b
  {
    if b != [] && IsOws(b[|b| - 1]) then TrimEnd(b[..|b| - 1]) else b
  }

  function TrimOws(b: Bytes): Bytes {
    TrimEnd(TrimStart(b))
  }

  predicate Trimmed(b: Bytes) {
    b != [] ==> !IsOws(b[0]) && !IsOws(b[|b| - 1])
  }

  /** Trimming is determined by its result: a trimmed core inside white space. */
  lemma {:induction false} TrimOwsUnique(lead: Bytes, core: Bytes, trail: Bytes)
    requires AllOws(lead) && AllOws(trail) && Trimmed(core)
    ensures TrimOws(lead + core + trail) == core
  {
    if lead != [] {
      var b := lead + core + trail;
      assert b[1..] == lead[1..] + core + trail;
      TrimOwsUnique(lead[1..], core, trail);
    } else {
      assert lead + core + trail == core + trail;
      if core == [] {
        assert core + trail == trail;
        TrimStartOfOws(trail);
      } else {
        assert TrimStart(core + trail) == core + trail;
        TrimEndDropsOws(core, trail);
      }
    }
  }

  lemma {:induction false} TrimStartOfOws(b: Bytes)
    requires AllOws(b)
    ensures TrimStart(b) == []
  {
    if b != [] {
      TrimStartOfOws(b[1..]);
    }
  }

  lemma {:induction false} TrimEndDropsOws(core: Bytes, trail: Bytes)
    requires AllOws(trail) && core != [] && !IsOws(core[|core| - 1])
    ensures TrimEnd(core + trail) == core
  {
    if trail == [] {
      assert core + trail == core;
    } else {
      var b := core + trail;
      assert b[..|b| - 1] == core + trail[..|trail| - 1];
      TrimEndDropsOws(core, trail[..|trail| - 1]);
    }
  }

  lemma {:induction false} TrimStartSplits(b: Bytes) returns (lead: Bytes)
    ensures AllOws(lead) && b == lead + TrimStart(b)
  {
    if b != [] && IsOws(b[0]) {
      var l := TrimStartSplits(b[1..]);
      lead := [b[0]] + l;
    } else {
      lead := [];
    }
  }

  lemma {:induction false} TrimEndSplits(b: Bytes) returns (trail: Bytes)
    ensures AllOws(trail) && b == TrimEnd(b) + trail
  {
    if b != [] && IsOws(b[|b| - 1]) {
      var t := TrimEndSplits(b[..|b| - 1]);
      trail := t + [b[|b| - 1]];
    } else {
      trail := [];
    }
  }

  /** What trimming removes is white space, and its result is trimmed. */
  lemma TrimOwsSplits(b: Bytes) returns (lead: Bytes, trail: Bytes)
    ensures AllOws(lead) && AllOws(trail) && Trimmed(TrimOws(b))
    ensures b == lead + TrimOws(b) + trail
  {
    lead := TrimStartSplits(b);
    trail := TrimEndSplits(TrimStart(b));
  }

  /** Leading white space does not change the trimmed value. */
  lemma TrimOwsAbsorbsLead(lead: Bytes, b: Bytes)
    requires AllOws(lead)
    ensures TrimOws(lead + b) == TrimOws(b)
  {
    var l, t := TrimOwsSplits(b);
    assert lead + b == (lead + l) + TrimOws(b) + t;
    TrimOwsUnique(lead + l, TrimOws(b), t);
  }

  // ------------------------------------------------------- the source's loops

  method SplitLines(block: Bytes) returns (output: seq<Bytes>)
    ensures output == SplitCrlf(block)
  {
    output := [];
    var rest := block;
    while true
      invariant output + SplitCrlf(rest) == SplitCrlf(block)
      decreases |rest|
    {
      match FindCrlf(rest)
      case Some(index) =>
        output, rest := output + [rest[..index]], rest[index + 2..];
      case None =>
        output := output + [rest];
        return;
    }
  }

  method CheckCrlfBlock(block: Bytes) returns (fault: Option<LineFault>)
    ensures fault == LineFaultFrom(block, 0)
    ensures fault.None? <==> PairedCrlf(block)
  {
    for index := 0 to |block|
      invariant LineFaultFrom(block, 0) == LineFaultFrom(block, index)
    {
      if block[index] == LF && (index == 0 || block[index - 1] != CR) {
        return Some(BareLf);
      }
      if block[index] == CR && (index + 1 >= |block| || block[index + 1] != LF) {
        return Some(BareCr);
      }
    }
    return None;
  }

  method TrimWhiteSpace(input: Bytes) returns (value: Bytes)
    ensures value == TrimOws(input)
  {
    value := input;
    while value != [] && IsOws(value[0])
      invariant TrimStart(value) == TrimStart(input)
    {
      value := value[1..];
    }
    while value != [] && IsOws(value[|value| - 1])
      invariant TrimEnd(value) == TrimOws(input)
    {
      value := value[..|value| - 1];
    }
  }
}
