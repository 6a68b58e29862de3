/** The canonical origin-form target: sorted, percent-encoded and joined query pairs after a clean path. */
module RequestTarget {
  import opened Wrappers
  import opened Bytes

  const QUESTION: u8 := 63
  const AMPERSAND: u8 := 38
  const EQUALS: u8 := 61
  const PERCENT: u8 := 37

  type Pair = (Bytes, Bytes)

  // ------------------------------------------------------------ percent-encoding

  /** The unreserved characters of section 2.3 of RFC 3986. */
  predicate Unreserved(c: u8) {
    IsAlphanumeric(c) || c == 45 || c == 46 || c == 95 || c == 126
  }

  function HexUpper(n: nat): (c: u8)
    requires n < 16
    ensures Unreserved(c) && c != PERCENT
  {
    if n < 10 then (48 + n) as u8 else (55 + n) as u8
  }

  function HexDigitOf(c: u8): nat {
    if IsDigit(c) then c as int - 48 else if 65 <= c <= 70 then c as int - 55 else 0
  }

  lemma HexRoundTrip(n: nat)
    requires n < 16
    ensures HexDigitOf(HexUpper(n)) == n
  {
  }

  function EscapeValue(high: u8, low: u8): nat {
    16 * HexDigitOf(high) + HexDigitOf(low)
  }

  lemma EscapeRoundTrip(c: u8)
    ensures EscapeValue(HexUpper(c as int / 16), HexUpper(c as int % 16)) == c as int
  {
    hide HexUpper, HexDigitOf;
    HexRoundTrip(c as int / 16);
    HexRoundTrip(c as int % 16);
  }

  function EncodeByte(c: u8): (r: Bytes)
    ensures r != []
  {
    if Unreserved(c) then [c] else [PERCENT, HexUpper(c as int / 16), HexUpper(c as int % 16)]
  }

  function PercentEncode(b: Bytes): Bytes {
    if b == [] then [] else PercentEncode(b[..|b| - 1]) + EncodeByte(b[|b| - 1])
  }

  /** Reads back an encoded text; None when an escape is cut short or leaves the octet range. */
  function PercentDecode(b: Bytes): Option<Bytes> {
    if b == [] then Some([])
    else if b[0] != PERCENT then
      match PercentDecode(b[1..])
      case None => None
      case Some(rest) => Some([b[0]] + rest)
    else if |b| < 3 || EscapeValue(b[1], b[2]) > 255 then None
    else
      match PercentDecode(b[3..])
      case None => None
      case Some(rest) => Some([EscapeValue(b[1], b[2]) as u8] + rest)
  }

  lemma DecodeOne(c: u8, rest: Bytes)
    requires PercentDecode(rest).Some?
    ensures PercentDecode(EncodeByte(c) + rest) == Some([c] + PercentDecode(rest).value)
  {
    hide HexUpper, EscapeValue;
    var b := EncodeByte(c) + rest;
    if Unreserved(c) {
      assert b[1..] == rest;
    } else {
      assert b[3..] == rest;
      EscapeRoundTrip(c);
    }
  }

  lemma {:induction false} EncodeCons(c: u8, b: Bytes)
    ensures PercentEncode([c] + b) == EncodeByte(c) + PercentEncode(b)
    decreases |b|
  {
    hide EncodeByte;
    if b == [] {
      assert [c] + b == [c] && [c][..0] == [];
      assert PercentEncode([c]) == [] + EncodeByte(c);
      assert EncodeByte(c) + [] == [] + EncodeByte(c);
    } else {
      var init, last := b[..|b| - 1], b[|b| - 1];
      var whole := [c] + b;
      assert whole[..|whole| - 1] == [c] + init;
      EncodeCons(c, init);
      assert EncodeByte(c) + PercentEncode(init) + EncodeByte(last)
          == EncodeByte(c) + (PercentEncode(init) + EncodeByte(last));
    }
  }

  /** Percent-encoding loses nothing. */
  lemma {:induction false} DecodeOfEncode(b: Bytes)
    ensures PercentDecode(PercentEncode(b)) == Some(b)
  {
    if b != [] {
      DecodeOfEncode(b[1..]);
      EncodeCons(b[0], b[1..]);
      assert b == [b[0]] + b[1..];
      DecodeOne(b[0], PercentEncode(b[1..]));
    }
  }

  lemma {:induction false} EncodedAlphabet(b: Bytes)
    ensures forall i :: 0 <= i < |PercentEncode(b)| ==>
              Unreserved(PercentEncode(b)[i]) || PercentEncode(b)[i] == PERCENT
  {
    if b != [] {
      EncodedAlphabet(b[..|b| - 1]);
      var last := EncodeByte(b[|b| - 1]);
      assert forall i :: 0 <= i < |last| ==> Unreserved(last[i]) || last[i] == PERCENT;
    }
  }

  /** The separators of a query never occur in encoded text. */
  lemma NoSeparators(b: Bytes)
    ensures QUESTION !in PercentEncode(b) && AMPERSAND !in PercentEncode(b) && EQUALS !in PercentEncode(b)
  {
    hide PercentEncode;
    EncodedAlphabet(b);
  }

  method EncodeText(value: Bytes) returns (output: Bytes)
    ensures output == PercentEncode(value)
  {
    output := [];
    for i := 0 to |value|
      invariant output == PercentEncode(value[..i])
    {
      assert value[..i + 1][..i] == value[..i];
      var c := value[i];
      if Unreserved(c) {
        output := output + [c];
      } else {
        output := output + [PERCENT] + [HexUpper(c as int / 16), HexUpper(c as int % 16)];
      }
      assert output == PercentEncode(value[..i]) + EncodeByte(c);
    }
    assert value[..|value|] == value;
  }

  // --------------------------------------------------------------------- sorting

  predicate PairLeq(p: Pair, q: Pair) {
    Leq(p.0, q.0) && (p.0 == q.0 ==> Leq(p.1, q.1))
  }

  lemma PairLeqTotal(p: Pair, q: Pair)
    ensures PairLeq(p, q) || PairLeq(q, p)
  {
    LeqTotal(p.0, q.0);
    LeqTotal(p.1, q.1);
  }

  lemma PairLeqAntisymmetric(p: Pair, q: Pair)
    requires PairLeq(p, q) && PairLeq(q, p)
    ensures p == q
  {
    LeqAntisymmetric(p.0, q.0);
    LeqAntisymmetric(p.1, q.1);
  }

  lemma PairLeqTransitive(p: Pair, q: Pair, r: Pair)
    requires PairLeq(p, q) && PairLeq(q, r)
    ensures PairLeq(p, r)
  {
    LeqTransitive(p.0, q.0, r.0);
    if p.0 == r.0 {
      LeqAntisymmetric(p.0, q.0);
      LeqTransitive(p.1, q.1, r.1);
    }
  }

  /** The first pair is no greater than any other, and so on down the list. */
  predicate Sorted(ps: seq<Pair>) {
    ps == [] || ((forall q :: q in ps[1..] ==> PairLeq(ps[0], q)) && Sorted(ps[1..]))
  }

  function Insert(p: Pair, ps: seq<Pair>): seq<Pair> {
    if ps == [] then [p]
    else if PairLeq(p, ps[0]) then [p] + ps
    else [ps[0]] + Insert(p, ps[1..])
  }

  function Sort(ps: seq<Pair>): seq<Pair> {
    if ps == [] then [] else Insert(ps[0], Sort(ps[1..]))
  }

  lemma {:induction false} InsertKeeps(p: Pair, ps: seq<Pair>)
    requires Sorted(ps)
    ensures Sorted(Insert(p, ps)) && multiset(Insert(p, ps)) == multiset(ps) + multiset{p}
  {
    if ps != [] {
      assert ps == [ps[0]] + ps[1..];
      if PairLeq(p, ps[0]) {
        assert ([p] + ps)[1..] == ps;
        forall q | q in ps
          ensures PairLeq(p, q)
        {
          if q != ps[0] {
            assert q in ps[1..];
            PairLeqTransitive(p, ps[0], q);
          }
        }
      } else {
        InsertKeeps(p, ps[1..]);
        var rest := Insert(p, ps[1..]);
        PairLeqTotal(p, ps[0]);
        assert ([ps[0]] + rest)[1..] == rest;
        forall q | q in rest
          ensures PairLeq(ps[0], q)
        {
          assert q in multiset(rest);
        }
      }
    }
  }

  lemma {:induction false} SortSorts(ps: seq<Pair>)
    ensures Sorted(Sort(ps)) && multiset(Sort(ps)) == multiset(ps)
  {
    if ps != [] {
      SortSorts(ps[1..]);
      InsertKeeps(ps[0], Sort(ps[1..]));
      assert ps == [ps[0]] + ps[1..];
    }
  }

  lemma HeadIsLeast(a: seq<Pair>, p: Pair)
    requires Sorted(a) && p in a
    ensures PairLeq(a[0], p)
  {
    LeqReflexive(a[0].0);
    LeqReflexive(a[0].1);
    if p != a[0] {
      assert p in a[1..];
    }
  }

  /** A multiset of pairs has one sorted listing. */
  lemma {:induction false} SortedUnique(a: seq<Pair>, b: seq<Pair>)
    requires Sorted(a) && Sorted(b) && multiset(a) == multiset(b)
    ensures a == b
    decreases |a|
  {
    hide PairLeq;
    assert |a| == |multiset(a)| == |multiset(b)| == |b|;
    if a != [] {
      SameHead(a, b);
      TailItems(a);
      TailItems(b);
      SortedUnique(a[1..], b[1..]);
    }
  }

  lemma SameHead(a: seq<Pair>, b: seq<Pair>)
    requires Sorted(a) && Sorted(b) && multiset(a) == multiset(b) && a != [] && b != []
    ensures a[0] == b[0]
  {
    hide Sorted, PairLeq;
    assert a[0] in multiset(b) && b[0] in multiset(a);
    HeadIsLeast(a, b[0]);
    HeadIsLeast(b, a[0]);
    PairLeqAntisymmetric(a[0], b[0]);
  }

  lemma TailItems(a: seq<Pair>)
    requires a != []
    ensures multiset(a[1..]) == multiset(a) - multiset{a[0]} && a == [a[0]] + a[1..]
  {
    assert a == [a[0]] + a[1..];
  }

  // ------------------------------------------------------------------- the target

  datatype TargetError = InvalidPath | TargetTooLong

  predicate CleanPath(p: Bytes) {
    && p != [] && p[0] == 47
    && !(|p| >= 2 && p[1] == 47)
    && 35 !in p && QUESTION !in p
    && forall i :: 0 <= i < |p| ==> !IsControl(p[i]) && p[i] != SPACE && p[i] != 92
  }

  function PairText(p: Pair): Bytes {
    PercentEncode(p.0) + [EQUALS] + PercentEncode(p.1)
  }

  function Texts(ps: seq<Pair>): (r: seq<Bytes>)
    ensures |r| == |ps|
    ensures forall i :: 0 <= i < |ps| ==> r[i] == PairText(ps[i])
  {
    seq(|ps|, i requires 0 <= i < |ps| => PairText(ps[i]))
  }

  function Render(path: Bytes, sorted: seq<Pair>): Bytes {
    if sorted == [] then path else path + [QUESTION] + JoinOn(Texts(sorted), AMPERSAND)
  }

  function Target(path: Bytes, query: seq<Pair>): Result<Bytes, TargetError> {
    if !CleanPath(path) then Failure(InvalidPath)
    else
      var target := Render(path, Sort(query));
      if |target| > 16 * 1024 then Failure(TargetTooLong) else Success(target)
  }

  lemma PairTextSeparators(p: Pair)
    ensures AMPERSAND !in PairText(p) && QUESTION !in PairText(p)
    ensures SplitOn(PairText(p), EQUALS) == [PercentEncode(p.0), PercentEncode(p.1)]
  {
    hide PercentEncode, SplitOn;
    NoSeparators(p.0);
    NoSeparators(p.1);
    var parts := [PercentEncode(p.0), PercentEncode(p.1)];
    assert parts[1..] == [parts[1]];
    SplitOfJoinOn(parts, EQUALS);
  }

  lemma PairTextInjective(p: Pair, q: Pair)
    requires PairText(p) == PairText(q)
    ensures p == q
  {
    hide PercentEncode, PercentDecode, SplitOn, PairText;
    PairTextSeparators(p);
    PairTextSeparators(q);
    assert [PercentEncode(p.0), PercentEncode(p.1)][0] == [PercentEncode(q.0), PercentEncode(q.1)][0];
    assert [PercentEncode(p.0), PercentEncode(p.1)][1] == [PercentEncode(q.0), PercentEncode(q.1)][1];
    DecodeOfEncode(p.0);
    DecodeOfEncode(p.1);
    DecodeOfEncode(q.0);
    DecodeOfEncode(q.1);
  }

  lemma JoinedTextsInjective(a: seq<Pair>, b: seq<Pair>)
    requires a != [] && b != []
    requires JoinOn(Texts(a), AMPERSAND) == JoinOn(Texts(b), AMPERSAND)
    ensures a == b
  {
    hide PairText, SplitOn, JoinOn;
    forall i | 0 <= i < |a|
      ensures AMPERSAND !in Texts(a)[i]
    {
      PairTextSeparators(a[i]);
    }
    forall i | 0 <= i < |b|
      ensures AMPERSAND !in Texts(b)[i]
    {
      PairTextSeparators(b[i]);
    }
    SplitOfJoinOn(Texts(a), AMPERSAND);
    SplitOfJoinOn(Texts(b), AMPERSAND);
    assert Texts(a) == Texts(b);
    forall i | 0 <= i < |a|
      ensures a[i] == b[i]
    {
      assert PairText(a[i]) == Texts(a)[i] == Texts(b)[i] == PairText(b[i]);
      PairTextInjective(a[i], b[i]);
    }
  }

  /** The path ends at the first question mark; without one there is no query. */
  lemma RenderSplits(path: Bytes, sorted: seq<Pair>)
    requires QUESTION !in path
    ensures sorted == [] ==> FindByte(Render(path, sorted), QUESTION).None?
    ensures sorted != [] ==>
              && FindByte(Render(path, sorted), QUESTION) == Some(|path|)
              && Render(path, sorted)[..|path|] == path
              && Render(path, sorted)[|path| + 1..] == JoinOn(Texts(sorted), AMPERSAND)
  {
    hide JoinOn, PairText;
    if sorted != [] {
      FirstSeparator(path, JoinOn(Texts(sorted), AMPERSAND), QUESTION);
    }
  }

  /** Two accepted inputs have the same target exactly when path and multiset of query pairs agree. */
  lemma TargetCanonical(path: Bytes, query: seq<Pair>, path': Bytes, query': seq<Pair>)
    requires Target(path, query).Success? && Target(path', query').Success?
    ensures Target(path, query) == Target(path', query') <==> path == path' && multiset(query) == multiset(query')
  {
    hide Render, Sort, Sorted, JoinOn, Texts;
    SortSorts(query);
    SortSorts(query');
    var a, b := Sort(query), Sort(query');
    if multiset(query) == multiset(query') {
      SortedUnique(a, b);
    }
    if Target(path, query) == Target(path', query') {
      RenderSplits(path, a);
      RenderSplits(path', b);
      RenderWithoutQuery(path);
      RenderWithoutQuery(path');
      if a != [] && b != [] {
        JoinedTextsInjective(a, b);
      }
    }
  }

  lemma RenderWithoutQuery(path: Bytes)
    ensures Render(path, []) == path
  {
  }

  method NewTarget(path: Bytes, query: seq<Pair>) returns (r: Result<Bytes, TargetError>)
    ensures r == Target(path, query)
  {
    hide Sort, PercentEncode;
    if !CleanPath(path) {
      return Failure(InvalidPath);
    }
    var pairs := Sort(query);
    var target := path;
    if pairs != [] {
      var texts: seq<Bytes> := [];
      for i := 0 to |pairs|
        invariant texts == Texts(pairs)[..i]
      {
        var name := EncodeText(pairs[i].0);
        var value := EncodeText(pairs[i].1);
        texts := texts + [name + [EQUALS] + value];
        assert texts == Texts(pairs)[..i] + [PairText(pairs[i])];
      }
      assert texts == Texts(pairs);
      target := path + [QUESTION] + JoinOn(texts, AMPERSAND);
    }
    if |target| > 16 * 1024 {
      return Failure(TargetTooLong);
    }
    return Success(target);
  }
}
