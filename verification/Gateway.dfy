/** The scope gateway: policy, pinned addresses, budget and audit log behind one decision. */
module Gateway {
  import opened Wrappers
  import opened Bytes
  import opened AuditChain
  import opened DnsPins
  import B = RequestBudget

  type Url = Bytes

  datatype DestinationClass =
    | Public | Unspecified | Loopback | Private | SharedAddressSpace | LinkLocal | Documentation | Benchmarking
    | ProtocolAssignment | Multicast | Reserved | Broadcast | UniqueLocal | SiteLocal | Orchid | DiscardOnly
    | Ipv4MappedNonPublic

  /** The compiled policy and the foreign functions it is read with. */
  datatype Policy = Policy(
    inScope: (Url, Bytes) -> bool,
    hostOf: Url -> Option<Bytes>,
    auditUrl: Url -> Bytes,
    classify: Address -> DestinationClass,
    maximumTotal: nat,
    maximumConcurrency: nat,
    requestsPerSecond: real)

  datatype Intent = Intent(
    url: Url,
    requestMethod: Bytes,
    resolved: seq<Address>,
    redirectDepth: nat,
    contextId: Bytes,
    resolverId: Bytes,
    ttlSeconds: nat)

  datatype Reason =
    | Authorized
    | UrlOrMethodOutOfScope
    | MissingDnsResolution
    | NonPublicDestination(address: Address, classified: DestinationClass)
    | RedirectLimitExceeded(maximum: nat, observed: nat)
    | DnsRejected(error: PinError)
    | TotalBudgetExhausted
    | ConcurrencyExceeded
    | RateLimited(retryAfterMilliseconds: nat)

  datatype Decision = Decision(id: nat, allow: bool, reason: Reason)

  datatype GatewayError = InvalidRedirectLimit | BudgetInvalid(fault: B.ConfigError)

  datatype PinStatus = NotEvaluated | PinnedNow | MatchedPin | RejectedPin

  datatype Event = Event(
    decision: Decision,
    requestMethod: Bytes,
    url: Bytes,
    destinations: seq<(Address, DestinationClass)>,
    contextId: Bytes,
    resolverId: Bytes,
    ttlSeconds: nat,
    pinStatus: PinStatus,
    redirectDepth: nat,
    elapsedMilliseconds: nat)

  // --------------------------------------------------------------- pure helpers

  function Upper(b: Bytes): Bytes {
    seq(|b|, i requires 0 <= i < |b| => if IsLower(b[i]) then b[i] - 32 else b[i])
  }

  function Milliseconds(seconds: real): nat {
    if seconds <= 0.0 then 0 else Min((seconds * 1000.0).Floor, U64_MAX)
  }

  function SanitizedIdentifier(b: Bytes): Bytes {
    if ValidIdentifier(b) then NormalIdentifier(b) else Ascii("[invalid]")
  }

  predicate AllowsRequest(policy: Policy, url: Url, requestMethod: Bytes) {
    policy.hostOf(url).Some? && policy.inScope(url, requestMethod)
  }

  function FirstNonPublic(policy: Policy, addresses: seq<Address>): (r: Option<Address>)
    ensures r.None? <==> forall i :: 0 <= i < |addresses| ==> policy.classify(addresses[i]).Public?
    ensures r.Some? ==> r.value in addresses && !policy.classify(r.value).Public?
  {
    if addresses == [] then None
    else if !policy.classify(addresses[0]).Public? then Some(addresses[0])
    else FirstNonPublic(policy, addresses[1..])
  }

  function ObservationOf(policy: Policy, intent: Intent, elapsed: real): Observation
    requires policy.hostOf(intent.url).Some?
  {
    Observation(intent.contextId, policy.hostOf(intent.url).value, AsSet(intent.resolved), intent.resolverId,
                intent.ttlSeconds, Milliseconds(elapsed))
  }

  function EventOf(policy: Policy, intent: Intent, elapsed: real, decision: Decision, status: PinStatus): Event {
    Event(decision, Upper(Trim(intent.requestMethod)), policy.auditUrl(intent.url),
          seq(|intent.resolved|, i requires 0 <= i < |intent.resolved| =>
            (intent.resolved[i], policy.classify(intent.resolved[i]))),
          SanitizedIdentifier(intent.contextId), SanitizedIdentifier(intent.resolverId), intent.ttlSeconds, status,
          intent.redirectDepth, Milliseconds(elapsed))
  }

  function ReasonOf(error: B.StartError): Reason {
    match error
    case Exhausted => TotalBudgetExhausted
    case ConcurrencyExceeded => Reason.ConcurrencyExceeded
    case RateLimited(retryAfter) => Reason.RateLimited(Milliseconds(retryAfter))
  }

  // ------------------------------------------------------------- the state machine

  datatype State<H> = State(
    budget: B.State,
    pins: Pins,
    records: seq<Record<Event, H>>,
    tail: H,
    nextDecision: nat)

  datatype Setup<!H> = Setup(policy: Policy, hash: Hash<Event, H>, genesis: H, maximumRedirects: nat)

  /** Everything a decision changes before it is logged. */
  datatype Verdict = Verdict(budget: B.State, pins: Pins, allow: bool, reason: Reason, status: PinStatus)

  /** The checks made before pins and budget are consulted. */
  function EarlyDenial(policy: Policy, maximumRedirects: nat, intent: Intent): Option<Reason> {
    if intent.redirectDepth > maximumRedirects then Some(RedirectLimitExceeded(maximumRedirects, intent.redirectDepth))
    else if !AllowsRequest(policy, intent.url, intent.requestMethod) then Some(UrlOrMethodOutOfScope)
    else if intent.resolved == [] then Some(MissingDnsResolution)
    else match FirstNonPublic(policy, intent.resolved)
      case Some(a) => Some(NonPublicDestination(a, policy.classify(a)))
      case None => None
  }

  function Evaluate(policy: Policy, maximumRedirects: nat, budget: B.State, pins: Pins, intent: Intent,
                    elapsed: real): (v: Verdict)
    requires budget.rate > 0.0
    ensures v.budget.rate == budget.rate
  {
    var early := EarlyDenial(policy, maximumRedirects, intent);
    if early.Some? then Verdict(budget, pins, false, early.value, NotEvaluated)
    else
      var pinning := PinOrValidate(pins, ObservationOf(policy, intent, elapsed));
      match pinning.result
      case Failure(error) => Verdict(budget, pinning.pins, false, DnsRejected(error), RejectedPin)
      case Success(status) =>
        var start := B.TryStart(budget, elapsed);
        Verdict(start.state, pinning.pins, start.error.None?,
                if start.error.None? then Authorized else ReasonOf(start.error.value),
                if status.Pinned? then PinnedNow else MatchedPin)
  }

  function Authorize<H>(setup: Setup<H>, s: State<H>, intent: Intent, elapsed: real): (State<H>, Decision)
    requires s.budget.rate > 0.0
  {
    var v := Evaluate(setup.policy, setup.maximumRedirects, s.budget, s.pins, intent, elapsed);
    var decision := Decision(s.nextDecision, v.allow, v.reason);
    var record := Appended(setup.hash, s.records, s.tail, EventOf(setup.policy, intent, elapsed, decision, v.status));
    (State(v.budget, v.pins, s.records + [record], record.recordHash, SaturatingAdd(s.nextDecision, 1)), decision)
  }

  datatype Op = Request(intent: Intent, elapsed: real) | CompleteRequest | ReleaseDns(contextId: Bytes)

  function Step<H>(setup: Setup<H>, s: State<H>, op: Op): (r: State<H>)
    requires s.budget.rate > 0.0
    ensures r.budget.rate == s.budget.rate
  {
    match op
    case Request(intent, elapsed) => Authorize(setup, s, intent, elapsed).0
    case CompleteRequest => s.(budget := B.Finish(s.budget))
    case ReleaseDns(contextId) => s.(pins := ReleaseContext(s.pins, contextId))
  }

  function Run<H>(setup: Setup<H>, s: State<H>, ops: seq<Op>): (r: State<H>)
    requires s.budget.rate > 0.0
    ensures r.budget.rate == s.budget.rate
    decreases |ops|
  {
    if ops == [] then s else Run(setup, Step(setup, s, ops[0]), ops[1..])
  }

  /** The state of a new gateway, when the policy's budget is acceptable. */
  ghost predicate Fresh<H>(setup: Setup<H>, s: State<H>) {
    && B.Initial(setup.policy.maximumTotal, setup.policy.maximumConcurrency, setup.policy.requestsPerSecond)
       == Success(s.budget)
    && s.pins == map[] && s.records == [] && s.tail == setup.genesis && s.nextDecision == 1
    && setup.maximumRedirects > 0
  }

  // ------------------------------------------------------------------ conservation

  /** Audit records of allowed requests. */
  function Allows<H>(records: seq<Record<Event, H>>): nat {
    if records == [] then 0
    else Allows(records[..|records| - 1]) + if records[|records| - 1].event.decision.allow then 1 else 0
  }

  lemma AllowsAppend<H>(records: seq<Record<Event, H>>, r: Record<Event, H>)
    ensures Allows(records + [r]) == Allows(records) + if r.event.decision.allow then 1 else 0
  {
    assert (records + [r])[..|records|] == records;
  }

  /** What every reachable state satisfies. */
  ghost predicate Invariant<H>(setup: Setup<H>, s: State<H>) {
    && B.Valid(s.budget)
    && s.budget.maxConcurrency == setup.policy.maximumConcurrency
    && s.budget.remaining + Allows(s.records) == setup.policy.maximumTotal
    && s.budget.inFlight <= Allows(s.records)
    && Verified(setup.hash, setup.genesis, s.records, s.tail)
  }

  /** A request that is denied costs nothing; one that is allowed costs one request and one slot. */
  lemma EvaluateAccounting(policy: Policy, maximumRedirects: nat, budget: B.State, pins: Pins, intent: Intent,
                           elapsed: real)
    requires B.Valid(budget)
    ensures var v := Evaluate(policy, maximumRedirects, budget, pins, intent, elapsed);
      && B.Valid(v.budget)
      && v.budget.maxConcurrency == budget.maxConcurrency
      && (if v.allow then v.budget.remaining + 1 == budget.remaining && v.budget.inFlight == budget.inFlight + 1
          else v.budget.remaining == budget.remaining && v.budget.inFlight == budget.inFlight)
  {
    hide PinOrValidate, EarlyDenial;
    B.StepAccounting(budget, B.Start(elapsed));
  }

  lemma AuthorizeKeepsInvariant<H>(setup: Setup<H>, s: State<H>, intent: Intent, elapsed: real)
    requires Invariant(setup, s)
    ensures var (t, decision) := Authorize(setup, s, intent, elapsed);
      && Invariant(setup, t)
      && |t.records| == |s.records| + 1 && t.records[..|s.records|] == s.records
      && t.records[|s.records|].event.decision == decision
      && (!decision.allow ==> t.budget.remaining == s.budget.remaining && t.budget.inFlight == s.budget.inFlight)
  {
    hide Evaluate, EventOf, Verified;
    EvaluateAccounting(setup.policy, setup.maximumRedirects, s.budget, s.pins, intent, elapsed);
    var v := Evaluate(setup.policy, setup.maximumRedirects, s.budget, s.pins, intent, elapsed);
    var event := EventOf(setup.policy, intent, elapsed, Decision(s.nextDecision, v.allow, v.reason), v.status);
    EventDecision(setup.policy, intent, elapsed, Decision(s.nextDecision, v.allow, v.reason), v.status);
    AppendKeepsVerified(setup.hash, setup.genesis, s.records, s.tail, event);
    AllowsAppend(s.records, Appended(setup.hash, s.records, s.tail, event));
  }

  lemma EventDecision(policy: Policy, intent: Intent, elapsed: real, decision: Decision, status: PinStatus)
    ensures EventOf(policy, intent, elapsed, decision, status).decision == decision
  {
  }

  lemma StepKeepsInvariant<H>(setup: Setup<H>, s: State<H>, op: Op)
    requires Invariant(setup, s)
    ensures Invariant(setup, Step(setup, s, op))
  {
    hide Authorize, Verified, ReleaseContext;
    match op
    case Request(intent, elapsed) => AuthorizeKeepsInvariant(setup, s, intent, elapsed);
    case CompleteRequest => B.StepAccounting(s.budget, B.Done);
    case ReleaseDns(_) =>
  }

  function Requests(ops: seq<Op>): nat
    decreases |ops|
  {
    if ops == [] then 0 else (if ops[0].Request? then 1 else 0) + Requests(ops[1..])
  }

  lemma StepRecords<H>(setup: Setup<H>, s: State<H>, op: Op)
    requires s.budget.rate > 0.0
    ensures |Step(setup, s, op).records| == |s.records| + if op.Request? then 1 else 0
  {
    hide Evaluate, EventOf;
  }

  /**
   * Conservation in every reachable state: requests left plus allows logged equal the total, slots
   * in use are within the limit and the allows, one record per request, and the log verifies.
   */
  lemma {:induction false} RunKeepsInvariant<H>(setup: Setup<H>, s: State<H>, ops: seq<Op>)
    requires Invariant(setup, s)
    ensures Invariant(setup, Run(setup, s, ops))
    ensures |Run(setup, s, ops).records| == |s.records| + Requests(ops)
    decreases |ops|
  {
    hide Step, Invariant;
    if ops != [] {
      InvariantRate(setup, s);
      StepKeepsInvariant(setup, s, ops[0]);
      StepRecords(setup, s, ops[0]);
      RunKeepsInvariant(setup, Step(setup, s, ops[0]), ops[1..]);
    } else {
      InvariantRate(setup, s);
    }
  }

  lemma InvariantRate<H>(setup: Setup<H>, s: State<H>)
    requires Invariant(setup, s)
    ensures s.budget.rate > 0.0
  {
  }

  lemma ReachableConserves<H>(setup: Setup<H>, s: State<H>, ops: seq<Op>)
    requires Fresh(setup, s)
    ensures var r := Run(setup, s, ops);
      && r.budget.remaining + Allows(r.records) == setup.policy.maximumTotal
      && r.budget.inFlight <= setup.policy.maximumConcurrency
      && r.budget.inFlight <= Allows(r.records)
      && |r.records| == Requests(ops)
      && Verified(setup.hash, setup.genesis, r.records, r.tail)
  {
    hide Run, Verified;
    FreshVerified(setup, s);
    RunKeepsInvariant(setup, s, ops);
  }

  lemma FreshVerified<H>(setup: Setup<H>, s: State<H>)
    requires Fresh(setup, s)
    ensures Invariant(setup, s)
  {
  }

  // ---------------------------------------------------------------------- pin safety

  predicate Releases(op: Op, contextId: Bytes) {
    op.ReleaseDns? && NormalIdentifier(op.contextId) == contextId
  }

  lemma StepKeepsPin<H>(setup: Setup<H>, s: State<H>, op: Op, key: Key, addresses: set<Address>, resolverId: Bytes,
                        since: nat)
    requires s.budget.rate > 0.0
    requires Holds(s.pins, key, addresses, resolverId, since) && !Releases(op, key.0)
    ensures Holds(Step(setup, s, op).pins, key, addresses, resolverId, since)
  {
    hide PinOrValidate, Holds, EarlyDenial, EventOf, ObservationOf, NormalIdentifier, ReleaseContext;
    match op
    case Request(intent, elapsed) =>
      if EarlyDenial(setup.policy, setup.maximumRedirects, intent).None? {
        NoEarlyDenial(setup.policy, setup.maximumRedirects, intent);
        PinSurvivesObservation(s.pins, ObservationOf(setup.policy, intent, elapsed), key, addresses, resolverId, since);
      }
    case CompleteRequest =>
    case ReleaseDns(contextId) => PinSurvivesRelease(s.pins, contextId, key, addresses, resolverId, since);
  }

  lemma NoEarlyDenial(policy: Policy, maximumRedirects: nat, intent: Intent)
    requires EarlyDenial(policy, maximumRedirects, intent).None?
    ensures policy.hostOf(intent.url).Some?
    ensures intent.resolved != [] && forall a :: a in intent.resolved ==> policy.classify(a).Public?
  {
  }

  lemma {:induction false} RunKeepsPin<H>(setup: Setup<H>, s: State<H>, ops: seq<Op>, key: Key,
                                          addresses: set<Address>, resolverId: Bytes, since: nat)
    requires s.budget.rate > 0.0
    requires Holds(s.pins, key, addresses, resolverId, since)
    requires forall i :: 0 <= i < |ops| ==> !Releases(ops[i], key.0)
    ensures Holds(Run(setup, s, ops).pins, key, addresses, resolverId, since)
    decreases |ops|
  {
    hide Step, Holds, Releases;
    if ops != [] {
      StepKeepsPin(setup, s, ops[0], key, addresses, resolverId, since);
      RunKeepsPin(setup, Step(setup, s, ops[0]), ops[1..], key, addresses, resolverId, since);
    }
  }

  /** What an allow says about its observation. */
  lemma AllowIsPinned<H>(setup: Setup<H>, s: State<H>, intent: Intent, elapsed: real)
    requires s.budget.rate > 0.0
    requires Authorize(setup, s, intent, elapsed).1.allow
    ensures setup.policy.hostOf(intent.url).Some?
    ensures forall a :: a in intent.resolved ==> setup.policy.classify(a).Public?
    ensures intent.resolved != []
    ensures var o := ObservationOf(setup.policy, intent, elapsed);
      && PinOrValidate(s.pins, o).result.Success?
      && Authorize(setup, s, intent, elapsed).0.pins == PinOrValidate(s.pins, o).pins
  {
    hide PinOrValidate, EarlyDenial, EventOf, ObservationOf, B.TryStart;
    if EarlyDenial(setup.policy, setup.maximumRedirects, intent).None? {
      NoEarlyDenial(setup.policy, setup.maximumRedirects, intent);
    }
  }

  /**
   * Pin safety over whole runs: two allows for one normalised context and host, with no release of
   * that context between them, carry the same all-public addresses, the same resolver, and
   * observation times that do not go back.
   */
  lemma PinnedForTheContext<H>(setup: Setup<H>, s: State<H>, first: Op, between: seq<Op>, second: Op)
    requires s.budget.rate > 0.0
    requires first.Request? && second.Request?
    requires Authorize(setup, s, first.intent, first.elapsed).1.allow
    requires var t := Run(setup, Step(setup, s, first), between);
      t.budget.rate > 0.0 && Authorize(setup, t, second.intent, second.elapsed).1.allow
    requires setup.policy.hostOf(first.intent.url).Some? && setup.policy.hostOf(second.intent.url).Some?
    requires KeyOf(ObservationOf(setup.policy, first.intent, first.elapsed))
          == KeyOf(ObservationOf(setup.policy, second.intent, second.elapsed))
    requires forall i :: 0 <= i < |between| ==> !Releases(between[i], NormalIdentifier(first.intent.contextId))
    ensures AsSet(first.intent.resolved) == AsSet(second.intent.resolved)
    ensures forall a :: a in first.intent.resolved ==> setup.policy.classify(a).Public?
    ensures NormalIdentifier(first.intent.resolverId) == NormalIdentifier(second.intent.resolverId)
    ensures Milliseconds(first.elapsed) <= Milliseconds(second.elapsed)
  {
    hide Authorize, PinOrValidate, NormalIdentifier, NormalHost, Run, Releases, Milliseconds, AsSet;
    AllowIsPinned(setup, s, first.intent, first.elapsed);
    var o := ObservationOf(setup.policy, first.intent, first.elapsed);
    var p := ObservationOf(setup.policy, second.intent, second.elapsed);
    AcceptedIsPinned(s.pins, o);
    var mid := Step(setup, s, first);
    RunKeepsPin(setup, mid, between, KeyOf(o), o.addresses, NormalIdentifier(o.resolverId), o.observedAt);
    var t := Run(setup, mid, between);
    AllowIsPinned(setup, t, second.intent, second.elapsed);
    AcceptedIsPinned(t.pins, p);
  }

  // ---------------------------------------------------------------------- the object

  class ScopeGateway<H(==)> {
    const policy: Policy
    const budget: B.Budget
    const dnsPins: PinSet
    const audit: Chain<Event, H>
    const maximumRedirects: nat
    var nextDecision: nat

    ghost function Config(): Setup<H>
      reads this
    {
      Setup(policy, audit.hash, audit.genesis, maximumRedirects)
    }

    ghost function Current(): State<H>
      reads this, budget, dnsPins, audit
    {
      State(budget.Current(), dnsPins.pins, audit.records, audit.tail, nextDecision)
    }

    ghost predicate Valid()
      reads this, budget, dnsPins, audit
    {
      Invariant(Config(), Current())
    }

    constructor (policy: Policy, maximumRedirects: nat, budget: B.Budget, hash: Hash<Event, H>, genesis: H)
      requires maximumRedirects > 0
      requires B.Initial(policy.maximumTotal, policy.maximumConcurrency, policy.requestsPerSecond)
            == Success(budget.Current())
      ensures Fresh(Config(), Current()) && Valid()
      ensures Config() == Setup(policy, hash, genesis, maximumRedirects)
      ensures this.budget == budget && fresh(dnsPins) && fresh(audit)
    {
      this.policy, this.maximumRedirects, nextDecision := policy, maximumRedirects, 1;
      this.budget := budget;
      dnsPins := new PinSet();
      audit := new Chain(hash, genesis);
      new;
      FreshVerified(Config(), Current());
    }

    /** A gateway for an acceptable configuration: a positive redirect limit and a valid budget. */
    static method Create(policy: Policy, maximumRedirects: nat, hash: Hash<Event, H>, genesis: H)
      returns (r: Result<ScopeGateway<H>, GatewayError>)
      ensures r == Failure(InvalidRedirectLimit) <==> maximumRedirects == 0
      ensures maximumRedirects > 0 && r.Failure? ==>
                B.Initial(policy.maximumTotal, policy.maximumConcurrency,
                          policy.requestsPerSecond) == Failure(r.error.fault)
      ensures r.Success? ==> Fresh(r.value.Config(), r.value.Current()) && r.value.Valid()
      ensures r.Success? ==> r.value.Config() == Setup(policy, hash, genesis, maximumRedirects)
    {
      if maximumRedirects == 0 {
        return Failure(InvalidRedirectLimit);
      }
      var budget := B.Budget.Create(policy.maximumTotal, policy.maximumConcurrency, policy.requestsPerSecond);
      if budget.Failure? {
        return Failure(BudgetInvalid(budget.error));
      }
      var gateway := new ScopeGateway(policy, maximumRedirects, budget.value, hash, genesis);
      return Success(gateway);
    }

    /** Decides, spends and pins; logs nothing. */
    method Decide(intent: Intent, elapsed: real) returns (decision: Decision, status: PinStatus)
      requires Valid()
      modifies this, budget, dnsPins
      ensures var v := old(Evaluate(policy, maximumRedirects, budget.Current(), dnsPins.pins, intent, elapsed));
        && budget.Current() == v.budget && dnsPins.pins == v.pins && status == v.status
        && decision == Decision(old(nextDecision), v.allow, v.reason)
      ensures nextDecision == SaturatingAdd(old(nextDecision), 1)
    {
      hide Verified, PinOrValidate, AllowsRequest;
      InvariantBudget(Config(), Current());
      var id := nextDecision;
      nextDecision := SaturatingAdd(nextDecision, 1);
      if intent.redirectDepth > maximumRedirects {
        return Decision(id, false, RedirectLimitExceeded(maximumRedirects, intent.redirectDepth)), NotEvaluated;
      }
      if !AllowsRequest(policy, intent.url, intent.requestMethod) {
        return Decision(id, false, UrlOrMethodOutOfScope), NotEvaluated;
      }
      if intent.resolved == [] {
        return Decision(id, false, MissingDnsResolution), NotEvaluated;
      }
      var offending := FirstNonPublic(policy, intent.resolved);
      if offending.Some? {
        var reason := NonPublicDestination(offending.value, policy.classify(offending.value));
        return Decision(id, false, reason), NotEvaluated;
      }
      NoEarlyDenial(policy, maximumRedirects, intent);
      var pinned := dnsPins.Observe(ObservationOf(policy, intent, elapsed));
      if pinned.Failure? {
        return Decision(id, false, DnsRejected(pinned.error)), RejectedPin;
      }
      status := if pinned.value.Pinned? then PinnedNow else MatchedPin;
      var refused := budget.Begin(elapsed);
      if refused.None? {
        decision := Decision(id, true, Authorized);
      } else {
        decision := Decision(id, false, ReasonOf(refused.value));
      }
    }

    method AuthorizeRequest(intent: Intent, elapsed: real) returns (decision: Decision)
      requires Valid()
      modifies this, budget, dnsPins, audit
      ensures Valid()
      ensures (Current(), decision) == Authorize(Config(), old(Current()), intent, elapsed)
    {
      hide Evaluate, EventOf, Verified;
      AuthorizeKeepsInvariant(Config(), Current(), intent, elapsed);
      var status;
      decision, status := Decide(intent, elapsed);
      var _ := audit.Append(EventOf(policy, intent, elapsed, decision, status));
    }

    method Complete()
      requires Valid()
      modifies budget
      ensures Valid()
      ensures Current() == Step(Config(), old(Current()), CompleteRequest)
    {
      hide Verified;
      StepKeepsInvariant(Config(), Current(), CompleteRequest);
      budget.Release();
    }

    method ReleaseContext(contextId: Bytes) returns (removed: nat)
      requires Valid()
      modifies dnsPins
      ensures Valid()
      ensures Current() == Step(Config(), old(Current()), ReleaseDns(contextId))
      ensures removed + |dnsPins.pins| == |old(dnsPins.pins)|
    {
      hide Verified;
      StepKeepsInvariant(Config(), Current(), ReleaseDns(contextId));
      removed := dnsPins.Release(contextId);
    }
  }

  lemma InvariantBudget<H>(setup: Setup<H>, s: State<H>)
    requires Invariant(setup, s)
    ensures B.Valid(s.budget)
  {
  }
}
