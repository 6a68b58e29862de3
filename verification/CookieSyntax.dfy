/** Set-Cookie headers: attributes, scope rules and prefixes, after sections 5.1.3, 5.1.4 and 5.3 of RFC 6265. */
module CookieSyntax {
  import opened Wrappers
  import opened Bytes
  import opened Http1Lines

  const SEMICOLON: u8 := 59
  const EQUALS: u8 := 61
  const SLASH: u8 := 47
  const QUESTION: u8 := 63
  const HASH: u8 := 35
  const HTTPS := Ascii("https")
  const HTTP := Ascii("http")

  const I64_MAX: int := 0x7FFF_FFFF_FFFF_FFFF
  const MAX_LIFETIME: int := 400 * 24 * 60 * 60

  datatype SameSite = Unspecified | Lax | Strict | NoRestriction

  datatype CookieFault =
    | InvalidOrigin
    | InvalidSetCookie
    | DomainOutsideOrigin
    | PublicSuffixLikeDomain
    | DomainAttributeOnIpOrigin
    | SecureCookieOverInsecureOrigin
    | SameSiteNoneWithoutSecure
    | SecurePrefixViolation
    | HostPrefixViolation

  type CookieResult<+T> = Result<T, CookieFault>

  /** Code outside the crate: UTF-8 validation, HTTP dates, IP literals and SHA-256. */
  datatype Foreign = Foreign(
    validUtf8: Bytes -> bool,
    parseHttpDate: Bytes -> Option<int>,
    isIpLiteral: Bytes -> bool,
    sha256: Bytes -> Bytes)

  datatype Origin = Origin(host: Bytes, scheme: Bytes)

  datatype Parsed = Parsed(
    name: Bytes,
    value: Bytes,
    domain: Bytes,
    path: Bytes,
    hostOnly: bool,
    expires: Option<int>,
    secure: bool,
    httpOnly: bool,
    sameSite: SameSite,
    delete: bool,
    valueSha: Bytes)

  // ----------------------------------------------------------------- normal forms

  predicate HasDoubleDot(b: Bytes) {
    exists i :: 0 <= i < |b| - 1 && b[i] == DOT && b[i + 1] == DOT
  }

  function NormalizeHost(host: Bytes): CookieResult<Bytes> {
    var h := NormalHost(host);
    if h == [] || |h| > 253 || h[0] == DOT || h[|h| - 1] == DOT || HasDoubleDot(h)
       || exists i :: 0 <= i < |h| && (IsControl(h[i]) || h[i] == SPACE)
    then Failure(InvalidOrigin)
    else Success(h)
  }

  /** A host name that normalisation leaves alone. */
  predicate Settled(host: Bytes) {
    NormalizeHost(host) == Success(host)
  }

  lemma NormalizedIsSettled(host: Bytes)
    requires NormalizeHost(host).Success?
    ensures Settled(NormalizeHost(host).value)
  {
    hide NormalHost;
    NormalHostSettles(host);
  }

  function NormalizeScheme(scheme: Bytes): (r: CookieResult<Bytes>)
    ensures r.Success? ==> r.value == HTTP || r.value == HTTPS
  {
    var s := Lower(Trim(scheme));
    if s == HTTP || s == HTTPS then Success(s) else Failure(InvalidOrigin)
  }

  /** The host of an authority: brackets and a decimal port removed. */
  function AuthorityHost(authority: Bytes): CookieResult<Bytes> {
    var a := Trim(authority);
    if a == [] || 64 in a || SLASH in a || 92 in a then Failure(InvalidOrigin)
    else if a[0] == 91 then
      var rest := a[1..];
      match FindByte(rest, 93)
      case None => Failure(InvalidOrigin)
      case Some(close) =>
        var suffix := rest[close + 1..];
        if suffix != [] && (suffix[0] != 58 || suffix[1..] == [] || !AllDigits(suffix[1..])) then Failure(InvalidOrigin)
        else NormalizeHost(rest[..close])
    else
      match FindByte(a, 58)
      case None => NormalizeHost(a)
      case Some(colon) =>
        var port := a[colon + 1..];
        if 58 !in port && port != [] && AllDigits(port) then NormalizeHost(a[..colon]) else NormalizeHost(a)
  }

  function NewOrigin(host: Bytes, scheme: Bytes): (r: CookieResult<Origin>)
    ensures r.Success? ==> r.value.scheme == HTTP || r.value.scheme == HTTPS
  {
    var h :- AuthorityHost(host);
    var s :- NormalizeScheme(scheme);
    Success(Origin(h, s))
  }

  lemma OriginIsSettled(host: Bytes, scheme: Bytes)
    requires NewOrigin(host, scheme).Success?
    ensures Settled(NewOrigin(host, scheme).value.host)
  {
    hide NormalizeHost, Settled, NormalizeScheme;
    var a := Trim(host);
    if a[0] == 91 {
      NormalizedIsSettled(a[1..][..FindByte(a[1..], 93).value]);
    } else {
      NormalizedIsSettledIf(a);
      if FindByte(a, 58).Some? {
        NormalizedIsSettledIf(a[..FindByte(a, 58).value]);
      }
    }
  }

  lemma NormalizedIsSettledIf(host: Bytes)
    ensures NormalizeHost(host).Success? ==> Settled(NormalizeHost(host).value)
  {
    hide NormalizeHost, Settled;
    if NormalizeHost(host).Success? {
      NormalizedIsSettled(host);
    }
  }

  function DropLeadingDots(b: Bytes): Bytes {
    if b != [] && b[0] == DOT then DropLeadingDots(b[1..]) else b
  }

  function NormalizeDomain(value: Bytes, foreign: Foreign): (r: CookieResult<Bytes>)
    ensures r.Success? ==> Settled(r.value)
  {
    if !foreign.validUtf8(value) then Failure(InvalidSetCookie)
    else
      var text := DropLeadingDots(Trim(value));
      if text != [] && text[|text| - 1] == DOT then Failure(InvalidSetCookie)
      else
        NormalizedIsSettledIf(text);
        NormalizeHost(text)
  }

  function NormalizePath(path: Bytes): (r: CookieResult<Bytes>)
    ensures r.Success? ==> r.value == path && path != [] && path[0] == SLASH
  {
    if path == [] || path[0] != SLASH || |path| > 2 * 1024
       || exists i :: 0 <= i < |path| && (IsControl(path[i]) || path[i] == SEMICOLON)
    then Failure(InvalidSetCookie)
    else Success(path)
  }

  predicate ValidRequestTarget(target: Bytes) {
    && 0 < |target| <= 8 * 1024 && target[0] == SLASH && HASH !in target
    && forall i :: 0 <= i < |target| ==> !IsControl(target[i]) && target[i] != SPACE
  }

  predicate Identifier(b: Bytes) {
    0 < |b| <= 256 && forall i :: 0 <= i < |b| ==> IsAlphanumeric(b[i]) || b[i] in {45, 95, 46, 58}
  }

  // -------------------------------------------------------------- domain matching

  predicate DomainMatches(host: Bytes, domain: Bytes) {
    || host == domain
    || (&& |host| > |domain|
        && host[|host| - |domain|..] == domain
        && host[|host| - |domain| - 1] == DOT)
  }

  /** Section 5.1.3 of RFC 6265: identical, or the domain is a suffix preceded by a dot. */
  lemma DomainMatchesExact(host: Bytes, domain: Bytes)
    ensures DomainMatches(host, domain) <==> host == domain || exists prefix :: host == prefix + [DOT] + domain
  {
    if DomainMatches(host, domain) && host != domain {
      var k := |host| - |domain| - 1;
      assert host == host[..k] + [DOT] + domain;
    }
    if prefix :| host == prefix + [DOT] + domain {
      assert host[|prefix| + 1..] == domain;
    }
  }

  const GENERIC_SUFFIXES: set<Bytes> := {
    Ascii("com"), Ascii("net"), Ascii("org"), Ascii("edu"), Ascii("gov"), Ascii("mil"), Ascii("int"), Ascii("io"),
    Ascii("dev"), Ascii("app")}

  const COUNTRY_SUFFIXES: set<Bytes> := {
    Ascii("co.uk"), Ascii("org.uk"), Ascii("ac.uk"), Ascii("gov.uk"), Ascii("com.tr"), Ascii("org.tr"), Ascii("net.tr"),
    Ascii("gen.tr")}

  const MORE_COUNTRY_SUFFIXES: set<Bytes> := {
    Ascii("biz.tr"), Ascii("info.tr"), Ascii("web.tr"), Ascii("com.au"), Ascii("net.au"), Ascii("org.au"),
    Ascii("co.jp"), Ascii("ne.jp"), Ascii("co.nz")}

  predicate PublicSuffixLike(domain: Bytes) {
    || DOT !in domain
    || domain in GENERIC_SUFFIXES || domain in COUNTRY_SUFFIXES || domain in MORE_COUNTRY_SUFFIXES
  }

  // ----------------------------------------------------------------- default path

  function LastSlash(b: Bytes): (r: Option<nat>)
    ensures r.Some? ==> r.value < |b| && b[r.value] == SLASH && forall j :: r.value < j < |b| ==> b[j] != SLASH
    ensures r.None? ==> SLASH !in b
  {
    if b == [] then None
    else if b[|b| - 1] == SLASH then Some(|b| - 1)
    else LastSlash(b[..|b| - 1])
  }

  function DefaultPath(target: Bytes): Bytes {
    var path := SplitOn(target, QUESTION)[0];
    if path == [] || path[0] != SLASH || path == [SLASH] then [SLASH]
    else match LastSlash(path)
      case None => [SLASH]
      case Some(i) => if i == 0 then [SLASH] else path[..i]
  }

  /** Section 5.1.4 of RFC 6265: the request path up to its last slash, or the root when that is all there is. */
  lemma DefaultPathIsDirectory(target: Bytes)
    requires ValidRequestTarget(target)
    ensures var path := SplitOn(target, QUESTION)[0];
      && path <= target && DefaultPath(target) != [] && DefaultPath(target)[0] == SLASH
      && exists rest :: SLASH !in rest
           && (|| path == DefaultPath(target) + [SLASH] + rest
               || (path == [SLASH] + rest && DefaultPath(target) == [SLASH]))
  {
    hide ValidRequestTarget;
    var path := SplitOn(target, QUESTION)[0];
    RequestPath(target);
    var i := LastSlash(path).value;
    var rest := path[i + 1..];
    assert SLASH !in rest;
    assert path == path[..i] + [SLASH] + rest;
    if i == 0 {
      assert path == [SLASH] + rest;
    }
  }

  lemma RequestPath(target: Bytes)
    requires ValidRequestTarget(target)
    ensures var path := SplitOn(target, QUESTION)[0]; path <= target && path != [] && path[0] == SLASH
  {
  }

  // -------------------------------------------------------------------- attributes

  datatype Attributes = Attributes(
    seen: set<Bytes>,
    domain: Option<Bytes>,
    path: Option<Bytes>,
    maxAge: Option<int>,
    expires: Option<int>,
    secure: bool,
    httpOnly: bool,
    sameSite: SameSite)

  const NO_ATTRIBUTES := Attributes({}, None, None, None, None, false, false, Unspecified)

  function Required(value: Option<Bytes>): (r: CookieResult<Bytes>)
    ensures r.Success? ==> value == Some(r.value) && r.value != []
  {
    if value.None? || value.value == [] then Failure(InvalidSetCookie) else Success(value.value)
  }

  /** A decimal integer with an optional leading minus, within 64 bits. */
  function ParseMaxAge(value: Bytes): CookieResult<int> {
    var digits := if value != [] && value[0] == 45 then value[1..] else value;
    if digits == [] || !AllDigits(digits) then Failure(InvalidSetCookie)
    else
      var n: int := if value[0] == 45 then 0 - DecimalValue(digits) else DecimalValue(digits);
      if -I64_MAX - 1 <= n <= I64_MAX then Success(n) else Failure(InvalidSetCookie)
  }

  function ParseSameSite(value: Bytes): CookieResult<SameSite> {
    var v := Lower(value);
    if v == Ascii("strict") then Success(Strict)
    else if v == Ascii("lax") then Success(Lax)
    else if v == Ascii("none") then Success(NoRestriction)
    else Failure(InvalidSetCookie)
  }

  function SetAttribute(a: Attributes, name: Bytes, value: Option<Bytes>, foreign: Foreign)
    : (r: CookieResult<Attributes>)
    ensures r.Success? && NormalForm(a) ==> NormalForm(r.value)
  {
    if name == Ascii("domain") then
      var v :- Required(value);
      var domain :- NormalizeDomain(v, foreign);
      Success(a.(domain := Some(domain)))
    else if name == Ascii("path") then
      var v :- Required(value);
      if !foreign.validUtf8(v) then Failure(InvalidSetCookie)
      else
        var path :- NormalizePath(v);
        Success(a.(path := Some(path)))
    else if name == Ascii("max-age") then
      var v :- Required(value);
      var age :- ParseMaxAge(v);
      Success(a.(maxAge := Some(age)))
    else if name == Ascii("expires") then
      var v :- Required(value);
      if !foreign.validUtf8(v) || foreign.parseHttpDate(v).None? then Failure(InvalidSetCookie)
      else Success(a.(expires := foreign.parseHttpDate(v)))
    else if name == Ascii("secure") then
      if value.Some? then Failure(InvalidSetCookie) else Success(a.(secure := true))
    else if name == Ascii("httponly") then
      if value.Some? then Failure(InvalidSetCookie) else Success(a.(httpOnly := true))
    else if name == Ascii("samesite") then
      var v :- Required(value);
      var sameSite :- ParseSameSite(v);
      Success(a.(sameSite := sameSite))
    else Failure(InvalidSetCookie)
  }

  function ReadAttribute(a: Attributes, raw: Bytes, foreign: Foreign): CookieResult<Attributes> {
    var segment := TrimOws(raw);
    if segment == [] then Failure(InvalidSetCookie)
    else
      var equals := FindByte(segment, EQUALS);
      var rawName := TrimOws(if equals.Some? then segment[..equals.value] else segment);
      var value := if equals.Some? then Some(TrimOws(segment[equals.value + 1..])) else None;
      var name := Lower(rawName);
      if !foreign.validUtf8(rawName) || name in a.seen then Failure(InvalidSetCookie)
      else SetAttribute(a.(seen := a.seen + {name}), name, value, foreign)
  }

  function ReadAttributes(a: Attributes, segments: seq<Bytes>, foreign: Foreign): CookieResult<Attributes>
    decreases |segments|
  {
    if segments == [] then Success(a)
    else
      var next :- ReadAttribute(a, segments[0], foreign);
      ReadAttributes(next, segments[1..], foreign)
  }

  /** A path attribute that was accepted is absolute, and a domain attribute is in normal form. */
  predicate NormalForm(a: Attributes) {
    && (a.path.Some? ==> a.path.value != [] && a.path.value[0] == SLASH)
    && (a.domain.Some? ==> Settled(a.domain.value))
  }

  lemma AttributeKeepsNormal(a: Attributes, raw: Bytes, foreign: Foreign)
    requires NormalForm(a) && ReadAttribute(a, raw, foreign).Success?
    ensures NormalForm(ReadAttribute(a, raw, foreign).value)
  {
    hide SetAttribute;
  }

  lemma {:induction false} AttributesKeepNormal(a: Attributes, segments: seq<Bytes>, foreign: Foreign)
    requires NormalForm(a) && ReadAttributes(a, segments, foreign).Success?
    ensures NormalForm(ReadAttributes(a, segments, foreign).value)
    decreases |segments|
  {
    hide ReadAttribute, NormalForm;
    if segments != [] {
      AttributeKeepsNormal(a, segments[0], foreign);
      AttributesKeepNormal(ReadAttribute(a, segments[0], foreign).value, segments[1..], foreign);
    }
  }

  // --------------------------------------------------------------------- the cookie

  predicate ValidName(name: Bytes) {
    0 < |name| <= 256 && forall i :: 0 <= i < |name| ==> IsToken(name[i])
  }

  predicate ValueByte(c: u8) {
    c == 0x21 || 0x23 <= c <= 0x2B || 0x2D <= c <= 0x3A || 0x3C <= c <= 0x5B || 0x5D <= c <= 0x7E
  }

  predicate ValidValue(value: Bytes) {
    |value| <= 4 * 1024 && forall i :: 0 <= i < |value| ==> ValueByte(value[i])
  }

  predicate SecurePrefix(name: Bytes) {
    Ascii("__Secure-") <= name
  }

  predicate HostPrefix(name: Bytes) {
    Ascii("__Host-") <= name
  }

  /** Domain and host-only flag of a cookie set by origin. */
  function CookieDomain(a: Attributes, origin: Origin, foreign: Foreign): CookieResult<(Bytes, bool)> {
    match a.domain
    case None => Success((origin.host, true))
    case Some(domain) =>
      if foreign.isIpLiteral(origin.host) || foreign.isIpLiteral(domain) then Failure(DomainAttributeOnIpOrigin)
      else if PublicSuffixLike(domain) then Failure(PublicSuffixLikeDomain)
      else if !DomainMatches(origin.host, domain) then Failure(DomainOutsideOrigin)
      else Success((domain, false))
  }

  /** Expiry time and whether the header deletes the cookie; Max-Age outranks Expires. */
  function Lifetime(a: Attributes, now: int): (Option<int>, bool) {
    match a.maxAge
    case Some(age) =>
      if age <= 0 then (Some(now), true)
      else
        var bounded := if age < MAX_LIFETIME then age else MAX_LIFETIME;
        (Some(if now + bounded < I64_MAX then now + bounded else I64_MAX), false)
    case None =>
      match a.expires
      case Some(time) => (Some(time), time <= now)
      case None => (None, false)
  }

  /** A header deletes its cookie exactly when the expiry is not in the future, save at the very end of the clock. */
  lemma ExpiryDecidesDeletion(a: Attributes, now: int)
    requires now <= I64_MAX
    ensures var life := Lifetime(a, now);
      (life.1 <==> life.0.Some? && life.0.value <= now) <==> !(now == I64_MAX && a.maxAge.Some? && a.maxAge.value > 0)
    ensures var life := Lifetime(a, now);
      a.maxAge.Some? ==> life.0.Some? && life.0.value <= now + MAX_LIFETIME && (life.1 <==> a.maxAge.value <= 0)
  {
  }

  function BuildCookie(name: Bytes, value: Bytes, a: Attributes, origin: Origin, target: Bytes, now: int,
                       foreign: Foreign)
    : CookieResult<Parsed>
  {
    if a.secure && origin.scheme != HTTPS then Failure(SecureCookieOverInsecureOrigin)
    else if a.sameSite.NoRestriction? && !a.secure then Failure(SameSiteNoneWithoutSecure)
    else
      var scope :- CookieDomain(a, origin, foreign);
      var path := if a.path.Some? then a.path.value else DefaultPath(target);
      if SecurePrefix(name) && (!a.secure || origin.scheme != HTTPS) then Failure(SecurePrefixViolation)
      else if HostPrefix(name) && (!a.secure || origin.scheme != HTTPS || !scope.1 || path != [SLASH]) then
        Failure(HostPrefixViolation)
      else
        var life := Lifetime(a, now);
        Success(Parsed(name, value, scope.0, path, scope.1, life.0, a.secure, a.httpOnly, a.sameSite, life.1,
                       foreign.sha256(value)))
  }

  function ParseSetCookie(header: Bytes, origin: Origin, target: Bytes, now: int,
                          foreign: Foreign): CookieResult<Parsed> {
    if header == [] || |header| > 8 * 1024 || CR in header || LF in header || 0 in header then Failure(InvalidSetCookie)
    else
      var segments := SplitOn(header, SEMICOLON);
      var pair := TrimOws(segments[0]);
      match FindByte(pair, EQUALS)
      case None => Failure(InvalidSetCookie)
      case Some(equals) =>
        var name, value := TrimOws(pair[..equals]), TrimOws(pair[equals + 1..]);
        if !ValidName(name) || !ValidValue(value) then Failure(InvalidSetCookie)
        else
          var a :- ReadAttributes(NO_ATTRIBUTES, segments[1..], foreign);
          BuildCookie(name, value, a, origin, target, now, foreign)
  }

  /** What an accepted header guarantees about its cookie. */
  predicate ScopedTo(p: Parsed, origin: Origin, foreign: Foreign) {
    && (p.secure ==> origin.scheme == HTTPS)
    && (p.sameSite.NoRestriction? ==> p.secure)
    && (if p.hostOnly then p.domain == origin.host
        else DomainMatches(origin.host, p.domain) && !PublicSuffixLike(p.domain) && !foreign.isIpLiteral(p.domain))
    && DomainMatches(origin.host, p.domain)
    && (SecurePrefix(p.name) ==> p.secure)
    && (HostPrefix(p.name) ==> p.secure && p.hostOnly && p.path == [SLASH])
    && p.path != [] && p.path[0] == SLASH
    && Settled(p.domain)
    && ValidName(p.name) && ValidValue(p.value)
    && p.valueSha == foreign.sha256(p.value)
  }

  lemma BuiltIsScoped(name: Bytes, value: Bytes, a: Attributes, origin: Origin, target: Bytes, now: int,
                      foreign: Foreign)
    requires ValidName(name) && ValidValue(value) && NormalForm(a) && ValidRequestTarget(target)
    requires Settled(origin.host)
    requires BuildCookie(name, value, a, origin, target, now, foreign).Success?
    ensures ScopedTo(BuildCookie(name, value, a, origin, target, now, foreign).value, origin, foreign)
  {
    hide PublicSuffixLike, ValidName, ValidValue, SecurePrefix, HostPrefix, DefaultPath, Lifetime, ValidRequestTarget,
      Settled;
    DefaultPathIsDirectory(target);
  }

  lemma AcceptedIsScoped(header: Bytes, origin: Origin, target: Bytes, now: int, foreign: Foreign)
    requires ValidRequestTarget(target) && Settled(origin.host)
    requires ParseSetCookie(header, origin, target, now, foreign).Success?
    ensures ScopedTo(ParseSetCookie(header, origin, target, now, foreign).value, origin, foreign)
  {
    hide ReadAttributes, BuildCookie, TrimOws, ScopedTo, ValidName, ValidValue, ValidRequestTarget, Settled;
    var segments := SplitOn(header, SEMICOLON);
    var pair := TrimOws(segments[0]);
    var equals := FindByte(pair, EQUALS).value;
    AttributesKeepNormal(NO_ATTRIBUTES, segments[1..], foreign);
    var a := ReadAttributes(NO_ATTRIBUTES, segments[1..], foreign).value;
    BuiltIsScoped(TrimOws(pair[..equals]), TrimOws(pair[equals + 1..]), a, origin, target, now, foreign);
  }

  /** The loop over attribute segments. */
  method ParseHeader(header: Bytes, origin: Origin, target: Bytes, now: int,
                     foreign: Foreign) returns (r: CookieResult<Parsed>)
    ensures r == ParseSetCookie(header, origin, target, now, foreign)
  {
    hide ReadAttribute, BuildCookie, ValidName, ValidValue;
    if header == [] || |header| > 8 * 1024 || CR in header || LF in header || 0 in header {
      return Failure(InvalidSetCookie);
    }
    var segments := SplitOn(header, SEMICOLON);
    var pair := TrimWhiteSpace(segments[0]);
    var equals := FindByte(pair, EQUALS);
    if equals.None? {
      return Failure(InvalidSetCookie);
    }
    var name := TrimWhiteSpace(pair[..equals.value]);
    var value := TrimWhiteSpace(pair[equals.value + 1..]);
    if !ValidName(name) || !ValidValue(value) {
      return Failure(InvalidSetCookie);
    }
    var attributes := NO_ATTRIBUTES;
    ghost var whole := ReadAttributes(NO_ATTRIBUTES, segments[1..], foreign);
    for i := 1 to |segments|
      invariant whole == ReadAttributes(attributes, segments[i..], foreign)
    {
      assert segments[i..][1..] == segments[i + 1..];
      var next := ReadAttribute(attributes, segments[i], foreign);
      if next.Failure? {
        return Failure(next.error);
      }
      attributes := next.value;
    }
    r := BuildCookie(name, value, attributes, origin, target, now, foreign);
  }
}
