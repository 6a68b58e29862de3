/** Address sets pinned per context and host for the lifetime of the context. */
module DnsPins {
  import opened Wrappers
  import opened Bytes

  datatype Address = V4(bits: nat) | V6(bits: nat)

  datatype Observation = Observation(
    contextId: Bytes,
    host: Bytes,
    addresses: set<Address>,
    resolverId: Bytes,
    ttlSeconds: nat,
    observedAt: nat)

  datatype Pin = Pin(
    contextId: Bytes,
    host: Bytes,
    addresses: set<Address>,
    resolverId: Bytes,
    firstObservedAt: nat,
    lastObservedAt: nat,
    initialTtl: nat,
    latestTtl: nat)

  datatype Status = Pinned | Matched

  datatype PinError =
    | InvalidContextId
    | InvalidResolverId
    | InvalidHost
    | EmptyAddressSet
    | ClockRegression
    | ResolverChanged(expected: Bytes, observed: Bytes)
    | RebindingDetected(host: Bytes, pinned: set<Address>, observedSet: set<Address>)

  type Key = (Bytes, Bytes)

  type Pins = map<Key, Pin>

  // ---------------------------------------------------------------- normal forms

  function NormalIdentifier(b: Bytes): Bytes {
    Lower(Trim(b))
  }

  predicate ValidIdentifier(b: Bytes) {
    var t := Trim(b);
    0 < |t| <= 128 && forall i :: 0 <= i < |t| ==> IsAlphanumeric(t[i]) || t[i] in {45, 95, 46, 58}
  }

  predicate ValidLabel(l: Bytes) {
    && 0 < |l| <= 63
    && l[0] != 45 && l[|l| - 1] != 45
    && forall i :: 0 <= i < |l| ==> IsAlphanumeric(l[i]) || l[i] == 45
  }

  predicate ValidHost(b: Bytes) {
    var h := NormalHost(b);
    && 0 < |h| <= 253
    && 58 !in h && 47 !in h
    && var labels := SplitOn(h, DOT);
       forall i :: 0 <= i < |labels| ==> ValidLabel(labels[i])
  }

  // -------------------------------------------------------------------- pinning

  function KeyOf(o: Observation): Key {
    (NormalIdentifier(o.contextId), NormalHost(o.host))
  }

  function ObservationFault(o: Observation): Option<PinError> {
    if !ValidIdentifier(o.contextId) then Some(InvalidContextId)
    else if !ValidIdentifier(o.resolverId) then Some(InvalidResolverId)
    else if !ValidHost(o.host) then Some(InvalidHost)
    else if o.addresses == {} then Some(EmptyAddressSet)
    else None
  }

  function MatchPin(pin: Pin, o: Observation): Result<Pin, PinError> {
    var resolver := NormalIdentifier(o.resolverId);
    if o.observedAt < pin.lastObservedAt then Failure(ClockRegression)
    else if resolver != pin.resolverId then Failure(ResolverChanged(pin.resolverId, resolver))
    else if o.addresses != pin.addresses then
      Failure(RebindingDetected(NormalHost(o.host), pin.addresses, o.addresses))
    else Success(pin.(lastObservedAt := o.observedAt, latestTtl := o.ttlSeconds))
  }

  function NewPin(o: Observation): Pin {
    var key := KeyOf(o);
    Pin(key.0, key.1, o.addresses, NormalIdentifier(o.resolverId), o.observedAt, o.observedAt, o.ttlSeconds,
        o.ttlSeconds)
  }

  datatype Pinning = Pinning(pins: Pins, result: Result<Status, PinError>)

  function PinOrValidate(pins: Pins, o: Observation): Pinning {
    var fault := ObservationFault(o);
    if fault.Some? then Pinning(pins, Failure(fault.value))
    else
      var key := KeyOf(o);
      if key !in pins then Pinning(pins[key := NewPin(o)], Success(Pinned))
      else match MatchPin(pins[key], o)
        case Failure(error) => Pinning(pins, Failure(error))
        case Success(pin) => Pinning(pins[key := pin], Success(Matched))
  }

  function ReleaseContext(pins: Pins, contextId: Bytes): Pins {
    map key | key in pins && key.0 != NormalIdentifier(contextId) :: pins[key]
  }

  /** key is pinned to these addresses and resolver, last seen no earlier than since. */
  predicate Holds(pins: Pins, key: Key, addresses: set<Address>, resolverId: Bytes, since: nat) {
    && key in pins
    && pins[key].addresses == addresses
    && pins[key].resolverId == resolverId
    && since <= pins[key].lastObservedAt
  }

  /** An accepted observation is what its key is pinned to afterwards, and agreed with any earlier pin. */
  lemma AcceptedIsPinned(pins: Pins, o: Observation)
    requires PinOrValidate(pins, o).result.Success?
    ensures Holds(PinOrValidate(pins, o).pins, KeyOf(o), o.addresses, NormalIdentifier(o.resolverId), o.observedAt)
    ensures KeyOf(o) in pins ==> Holds(pins, KeyOf(o), o.addresses, NormalIdentifier(o.resolverId), 0)
    ensures KeyOf(o) in pins ==> pins[KeyOf(o)].lastObservedAt <= o.observedAt
  {
    hide ValidIdentifier, ValidHost, NormalIdentifier, NormalHost;
  }

  /** No observation, accepted or not, changes the addresses or resolver of a pin or moves it back in time. */
  lemma PinSurvivesObservation(pins: Pins, o: Observation, key: Key, addresses: set<Address>, resolverId: Bytes,
                               since: nat)
    requires Holds(pins, key, addresses, resolverId, since)
    ensures Holds(PinOrValidate(pins, o).pins, key, addresses, resolverId, since)
  {
    hide ValidIdentifier, ValidHost, NormalIdentifier, NormalHost;
  }

  lemma PinSurvivesRelease(pins: Pins, contextId: Bytes, key: Key, addresses: set<Address>, resolverId: Bytes,
                           since: nat)
    requires Holds(pins, key, addresses, resolverId, since)
    requires NormalIdentifier(contextId) != key.0
    ensures Holds(ReleaseContext(pins, contextId), key, addresses, resolverId, since)
  {
    hide NormalIdentifier;
  }

  // ------------------------------------------------------------------ the object

  class PinSet {
    var pins: Pins

    constructor ()
      ensures pins == map[]
    {
      pins := map[];
    }

    method Observe(o: Observation) returns (result: Result<Status, PinError>)
      modifies this
      ensures Pinning(pins, result) == PinOrValidate(old(pins), o)
    {
      var fault := ObservationFault(o);
      if fault.Some? {
        return Failure(fault.value);
      }
      var resolverId := NormalIdentifier(o.resolverId);
      var key := (NormalIdentifier(o.contextId), NormalHost(o.host));
      if key in pins {
        var pin := pins[key];
        if o.observedAt < pin.lastObservedAt {
          return Failure(ClockRegression);
        }
        if resolverId != pin.resolverId {
          return Failure(ResolverChanged(pin.resolverId, resolverId));
        }
        if o.addresses != pin.addresses {
          return Failure(RebindingDetected(key.1, pin.addresses, o.addresses));
        }
        pins := pins[key := pin.(lastObservedAt := o.observedAt, latestTtl := o.ttlSeconds)];
        return Success(Matched);
      }
      pins := pins[key := Pin(key.0, key.1, o.addresses, resolverId, o.observedAt, o.observedAt, o.ttlSeconds,
                              o.ttlSeconds)];
      return Success(Pinned);
    }

    method Release(contextId: Bytes) returns (removed: nat)
      modifies this
      ensures pins == ReleaseContext(old(pins), contextId)
      ensures removed + |pins| == |old(pins)|
    {
      var before := pins;
      pins := ReleaseContext(pins, contextId);
      SubmapSize(pins, before);
      removed := |before| - |pins|;
    }
  }

  lemma SubmapSize(a: Pins, b: Pins)
    requires a.Keys <= b.Keys
    ensures |a| <= |b|
  {
    assert b.Keys == a.Keys + (b.Keys - a.Keys);
    assert |b.Keys| == |a.Keys| + |b.Keys - a.Keys|;
  }
}
