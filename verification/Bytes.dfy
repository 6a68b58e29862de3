/** Octets, the ASCII classes the crates test for, and decimal numerals. */
module Bytes {
  import opened Wrappers

  newtype u8 = x: int | 0 <= x < 256

  type Bytes = seq<u8>

  const U64_MAX: nat := 0xFFFF_FFFF_FFFF_FFFF

  const TAB: u8 := 9
  const LF: u8 := 10
  const CR: u8 := 13
  const SPACE: u8 := 32
  const CRLF: Bytes := [CR, LF]

  /** The octets of an ASCII literal. */
  function Ascii(s: string): (b: Bytes)
    requires forall i :: 0 <= i < |s| ==> s[i] as int < 128
    ensures |b| == |s|
    ensures forall i :: 0 <= i < |s| ==> b[i] as int == s[i] as int
  {
    seq(|s|, i requires 0 <= i < |s| => s[i] as int as u8)
  }

  predicate IsDigit(c: u8) {
    48 <= c <= 57
  }

  predicate IsUpper(c: u8) {
    65 <= c <= 90
  }

  predicate IsLower(c: u8) {
    97 <= c <= 122
  }

  predicate IsAlphanumeric(c: u8) {
    IsDigit(c) || IsUpper(c) || IsLower(c)
  }

  predicate IsControl(c: u8) {
    c < 32 || c == 127
  }

  /** The token alphabet of header names, methods and cookie names. */
  predicate IsToken(c: u8) {
    || IsAlphanumeric(c)
    || c in {33, 35, 36, 37, 38, 39, 42, 43, 45, 46, 94, 95, 96, 124, 126}
  }

  function LowerByte(c: u8): (r: u8)
    ensures !IsUpper(r)
    ensures !IsUpper(c) ==> r == c
  {
    if IsUpper(c) then c + 32 else c
  }

  function Lower(b: Bytes): (r: Bytes)
    ensures |r| == |b|
    ensures forall i :: 0 <= i < |b| ==> r[i] == LowerByte(b[i])
  {
    seq(|b|, i requires 0 <= i < |b| => LowerByte(b[i]))
  }

  lemma LowerIdempotent(b: Bytes)
    ensures Lower(Lower(b)) == Lower(b)
  {
  }

  predicate AllDigits(b: Bytes) {
    forall i :: 0 <= i < |b| ==> IsDigit(b[i])
  }

  function DecimalValue(b: Bytes): nat
    requires AllDigits(b)
  {
    if b == [] then 0
    else 10 * DecimalValue(b[..|b| - 1]) + (b[|b| - 1] as int - 48)
  }

  /** The shortest decimal numeral of n. */
  function Decimal(n: nat): (b: Bytes)
    ensures |b| > 0 && AllDigits(b)
    ensures DecimalValue(b) == n
  {
    if n < 10 then
      assert [(n + 48) as u8][..0] == [];
      [(n + 48) as u8]
    else
      var b := Decimal(n / 10) + [(n % 10 + 48) as u8];
      assert b[..|b| - 1] == Decimal(n / 10);
      b
  }

  function ByteFrom(b: Bytes, c: u8, i: nat): (r: Option<nat>)
    requires i <= |b|
    requires forall j :: 0 <= j < i ==> b[j] != c
    ensures r.Some? ==> r.value < |b| && b[r.value] == c && forall j :: 0 <= j < r.value ==> b[j] != c
    ensures r.None? ==> forall j :: 0 <= j < |b| ==> b[j] != c
    decreases |b| - i
  {
    if i == |b| then None
    else if b[i] == c then Some(i)
    else ByteFrom(b, c, i + 1)
  }

  /** The position of the first octet equal to c. */
  function FindByte(b: Bytes, c: u8): (r: Option<nat>)
    ensures r.Some? ==> r.value < |b| && b[r.value] == c && forall j :: 0 <= j < r.value ==> b[j] != c
    ensures r.None? ==> forall j :: 0 <= j < |b| ==> b[j] != c
  {
    ByteFrom(b, c, 0)
  }

  function SplitOn(b: Bytes, c: u8): (parts: seq<Bytes>)
    ensures |parts| > 0
    decreases |b|
  {
    match FindByte(b, c)
    case None => [b]
    case Some(i) => [b[..i]] + SplitOn(b[i + 1..], c)
  }

  function Min(a: nat, b: nat): nat {
    if a < b then a else b
  }

  /** 64-bit saturating addition. */
  function SaturatingAdd(a: nat, b: nat): nat {
    Min(a + b, U64_MAX)
  }

  // ------------------------------------------------------------------- host text

  const DOT: u8 := 46

  predicate IsSpace(c: u8) {
    9 <= c <= 13 || c == 32
  }

  function TrimLeft(b: Bytes): Bytes {
    if b != [] && IsSpace(b[0]) then TrimLeft(b[1..]) else b
  }

  function TrimRight(b: Bytes): Bytes {
    if b != [] && IsSpace(b[|b| - 1]) then TrimRight(b[..|b| - 1]) else b
  }

  function Trim(b: Bytes): Bytes {
    TrimRight(TrimLeft(b))
  }

  function DropTrailingDots(b: Bytes): Bytes {
    if b != [] && b[|b| - 1] == DOT then DropTrailingDots(b[..|b| - 1]) else b
  }

  /** A host name as it is compared: no outer white space, no trailing dots, lower case. */
  function NormalHost(b: Bytes): Bytes {
    Lower(DropTrailingDots(Trim(b)))
  }

  lemma NormalHostSettles(b: Bytes)
    ensures var h := NormalHost(b);
      h != [] && !IsSpace(h[0]) && !IsSpace(h[|h| - 1]) && h[|h| - 1] != DOT ==> NormalHost(h) == h
  {
    var h := NormalHost(b);
    LowerIdempotent(DropTrailingDots(Trim(b)));
    if h != [] && !IsSpace(h[0]) && !IsSpace(h[|h| - 1]) {
      assert Trim(h) == h;
    }
  }

  // --------------------------------------------------------------------- digests

  /** Sixty-four lower-case hexadecimal digits. */
  predicate IsSha256(b: Bytes) {
    |b| == 64 && forall i :: 0 <= i < |b| ==> IsDigit(b[i]) || 97 <= b[i] <= 102
  }

  type Sha256 = b: Bytes | IsSha256(b) witness seq(64, _ => 48)

  // ------------------------------------------------------------------ separators

  function JoinOn(parts: seq<Bytes>, c: u8): Bytes
    requires |parts| > 0
  {
    if |parts| == 1 then parts[0] else parts[0] + [c] + JoinOn(parts[1..], c)
  }

  lemma FirstSeparator(part: Bytes, rest: Bytes, c: u8)
    requires c !in part
    ensures FindByte(part + [c] + rest, c) == Some(|part|)
  {
    var b := part + [c] + rest;
    assert b[|part|] == c;
    assert forall j :: 0 <= j < |part| ==> b[j] == part[j];
  }

  lemma SplitOnce(part: Bytes, rest: Bytes, c: u8)
    requires c !in part
    ensures SplitOn(part + [c] + rest, c) == [part] + SplitOn(rest, c)
  {
    hide FindByte;
    var b := part + [c] + rest;
    FirstSeparator(part, rest, c);
    assert b[..|part|] == part && b[|part| + 1..] == rest;
  }

  /** Joining parts that do not hold the separator is undone by splitting at it. */
  lemma {:induction false} SplitOfJoinOn(parts: seq<Bytes>, c: u8)
    requires |parts| > 0 && forall i :: 0 <= i < |parts| ==> c !in parts[i]
    ensures SplitOn(JoinOn(parts, c), c) == parts
  {
    hide FindByte;
    if |parts| == 1 {
      assert FindByte(parts[0], c).None?;
    } else {
      SplitOnce(parts[0], JoinOn(parts[1..], c), c);
      SplitOfJoinOn(parts[1..], c);
    }
  }

  // ---------------------------------------------------------------------- order

  /** Byte-wise lexicographic order. */
  predicate Leq(a: Bytes, b: Bytes) {
    a == [] || (b != [] && (a[0] < b[0] || (a[0] == b[0] && Leq(a[1..], b[1..]))))
  }

  lemma LeqReflexive(a: Bytes)
    ensures Leq(a, a)
  {
  }

  lemma {:induction false} LeqTotal(a: Bytes, b: Bytes)
    ensures Leq(a, b) || Leq(b, a)
  {
    if a != [] && b != [] {
      LeqTotal(a[1..], b[1..]);
    }
  }

  lemma {:induction false} LeqAntisymmetric(a: Bytes, b: Bytes)
    requires Leq(a, b) && Leq(b, a)
    ensures a == b
  {
    if a != [] {
      LeqAntisymmetric(a[1..], b[1..]);
      assert a == [a[0]] + a[1..] && b == [b[0]] + b[1..];
    }
  }

  lemma {:induction false} LeqTransitive(a: Bytes, b: Bytes, c: Bytes)
    requires Leq(a, b) && Leq(b, c)
    ensures Leq(a, c)
  {
    if a != [] && a[0] == b[0] == c[0] {
      LeqTransitive(a[1..], b[1..], c[1..]);
    }
  }
}
