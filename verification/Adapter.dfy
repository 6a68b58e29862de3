/** The adapter session protocol: one-use grants, quotas, terminal states and conformance certificates. */
module Adapter {
  import opened Wrappers
  import opened Bytes
  import opened AuditChain

  datatype Action = LoadFixture | ExecuteReadOnly | EmitObservation | Finalize

  datatype Outcome = Accepted | ProducedObservation | NoObservation | Finalized

  datatype SessionState = Open | Cancelling | Completed | Cancelled | EmergencyStopped | Failed

  predicate Terminal(s: SessionState) {
    s.Completed? || s.Cancelled? || s.EmergencyStopped? || s.Failed?
  }

  datatype BoundaryError =
    | GrantInactive
    | InvalidDigest
    | InvalidEnvelope
    | InvalidSessionTransition
    | QuotaExceeded
    | AuditInvalid
    | CertificationDenied

  datatype Limits = Limits(
    maximumMessages: nat,
    maximumMessageBytes: nat,
    maximumSessionBytes: nat,
    maximumCpu: nat,
    maximumMemory: nat)

  /** The hard ceilings a manifest is built under. */
  predicate ValidLimits(l: Limits) {
    && 0 < l.maximumMessages <= 100_000
    && 0 < l.maximumMessageBytes <= 4 * 1024 * 1024
    && l.maximumMessageBytes <= l.maximumSessionBytes <= 512 * 1024 * 1024
    && 0 < l.maximumCpu <= 600_000
    && 0 < l.maximumMemory <= 2 * 1024 * 1024 * 1024
  }

  datatype Event =
    | SessionOpened(sessionId: Bytes, manifest: Sha256, profile: Sha256, limits: Sha256)
    | EnvelopeProcessed(sessionId: Bytes, envelope: Envelope, output: Bytes, outputBytes: nat, outcome: Outcome)
    | SessionTransition(sessionId: Bytes, state: SessionState)
    | FailedClosed(sessionId: Bytes, reason: FailReason)
    | ProfileRegistered(profileId: Bytes, profile: Sha256)
    | Certified(certificateId: Bytes, sessionId: Bytes, certificate: Sha256)

  datatype FailReason = GrantExpired | MessageByteLimit | SessionResourceLimit | ObservationLimit

  datatype Envelope = Envelope(
    sessionId: Bytes,
    sequence: nat,
    action: Action,
    profile: Bytes,
    input: Bytes,
    payloadBytes: nat)

  datatype Usage = Usage(cpu: nat, peakMemory: nat, outputBytes: nat)

  datatype Receipt = Receipt(
    sequence: nat,
    action: Action,
    outcome: Outcome,
    output: Bytes,
    messages: nat,
    inputBytes: nat,
    outputBytes: nat,
    cpu: nat,
    peakMemory: nat,
    state: SessionState,
    auditTail: Sha256)

  /** Everything the crate hashes; the digest of distinct kinds is one function of the material. */
  datatype Material =
    | ChainLink(sequence: nat, previous: Sha256, event: Event)
    | SessionSeed(grant: Sha256, runId: Bytes, workerId: Bytes, now: nat)
    | LimitsMaterial(limits: Limits)
    | CertificateSeed(authorityId: Bytes, sessionId: Bytes, sessionTail: Bytes, registryTail: Bytes)
    | CertificateMaterial(body: CertificateBody)

  type Digest = Material -> Sha256

  function LinkHash(d: Digest): Hash<Event, Sha256> {
    (sequence: nat, previous: Sha256, event: Event) => d(ChainLink(sequence, previous, event))
  }

  type Log = Chain<Event, Sha256>

  // -------------------------------------------------------------- accepted messages

  datatype Entry = Entry(envelope: Envelope, usage: Usage, outcome: Outcome)

  function InputSum(es: seq<Entry>): nat {
    if es == [] then 0 else InputSum(es[..|es| - 1]) + es[|es| - 1].envelope.payloadBytes
  }

  function OutputSum(es: seq<Entry>): nat {
    if es == [] then 0 else OutputSum(es[..|es| - 1]) + es[|es| - 1].usage.outputBytes
  }

  function CpuSum(es: seq<Entry>): nat {
    if es == [] then 0 else CpuSum(es[..|es| - 1]) + es[|es| - 1].usage.cpu
  }

  function Larger(a: nat, b: nat): nat {
    if a < b then b else a
  }

  function PeakOf(es: seq<Entry>): nat {
    if es == [] then 0 else Larger(PeakOf(es[..|es| - 1]), es[|es| - 1].usage.peakMemory)
  }

  predicate Produced(e: Entry) {
    e.envelope.action.EmitObservation? && e.outcome.ProducedObservation?
  }

  function ProducedCount(es: seq<Entry>): nat {
    if es == [] then 0 else ProducedCount(es[..|es| - 1]) + if Produced(es[|es| - 1]) then 1 else 0
  }

  lemma SumsAppend(es: seq<Entry>, e: Entry)
    ensures InputSum(es + [e]) == InputSum(es) + e.envelope.payloadBytes
    ensures OutputSum(es + [e]) == OutputSum(es) + e.usage.outputBytes
    ensures CpuSum(es + [e]) == CpuSum(es) + e.usage.cpu
    ensures PeakOf(es + [e]) == Larger(PeakOf(es), e.usage.peakMemory)
    ensures ProducedCount(es + [e]) == ProducedCount(es) + if Produced(e) then 1 else 0
  {
    assert (es + [e])[..|es|] == es;
  }

  /** Sequence numbers count from one, and every action was granted and reported a fitting outcome. */
  predicate WellOrdered(es: seq<Entry>, actions: set<Action>) {
    forall i :: 0 <= i < |es| ==>
      && es[i].envelope.sequence == i + 1
      && es[i].envelope.action in actions
      && OutcomeFits(es[i].envelope.action, es[i].outcome)
  }

  predicate NoneFinalize(es: seq<Entry>) {
    forall i :: 0 <= i < |es| ==> !es[i].envelope.action.Finalize?
  }

  /** Exactly one Finalize, and it came last. */
  predicate FinalizedLast(es: seq<Entry>) {
    es != [] && es[|es| - 1].envelope.action.Finalize? && NoneFinalize(es[..|es| - 1])
  }

  lemma OrderAppend(es: seq<Entry>, e: Entry, actions: set<Action>)
    requires WellOrdered(es, actions) && NoneFinalize(es)
    requires e.envelope.sequence == |es| + 1 && e.envelope.action in actions
    requires OutcomeFits(e.envelope.action, e.outcome)
    ensures WellOrdered(es + [e], actions)
    ensures if e.envelope.action.Finalize? then FinalizedLast(es + [e]) else NoneFinalize(es + [e])
  {
    assert (es + [e])[..|es|] == es;
  }

  /** The outcomes an action may report. */
  predicate OutcomeFits(action: Action, outcome: Outcome) {
    match action
    case Finalize => outcome.Finalized?
    case EmitObservation => outcome.ProducedObservation? || outcome.NoObservation?
    case _ => !outcome.Finalized?
  }

  // --------------------------------------------------------------------- the session

  class Grant {
    const runId: Bytes
    const workerId: Bytes
    const policy: Sha256
    const manifest: Sha256
    const profile: Sha256
    const actions: set<Action>
    const issuedAt: nat
    const expiresAt: nat
    const sha: Sha256
    var consumed: bool

    constructor (runId: Bytes, workerId: Bytes, policy: Sha256, manifest: Sha256, profile: Sha256, actions: set<Action>,
                 issuedAt: nat, expiresAt: nat, sha: Sha256)
      ensures !consumed
    {
      this.runId, this.workerId, this.policy, this.manifest, this.profile := runId, workerId, policy, manifest, profile;
      this.actions, this.issuedAt, this.expiresAt, this.sha, consumed := actions, issuedAt, expiresAt, sha, false;
    }
  }

  datatype Manifest = Manifest(sha: Sha256, actions: set<Action>, limits: Limits)

  datatype Profile = Profile(profileId: Bytes, policy: Sha256, maximumObservations: nat, sha: Sha256)

  class Session {
    const digest: Digest
    const sessionId: Bytes
    const runId: Bytes
    const workerId: Bytes
    const policy: Sha256
    const manifest: Sha256
    const grant: Sha256
    const profile: Sha256
    const limitsSha: Sha256
    const actions: set<Action>
    const limits: Limits
    const maximumObservations: nat
    const expiresAt: nat
    const audit: Log

    var state: SessionState
    var messageCount: nat
    var observationCount: nat
    var inputBytes: nat
    var outputBytes: nat
    var cpu: nat
    var peakMemory: nat
    var externalIo: bool
    var violations: nat
    var auditTail: Sha256
    var nextSequence: nat

    /** The messages the session has accepted, in order. */
    ghost var accepted: seq<Entry>

    /** Counters are the sums over the accepted messages and stay within the limits. */
    ghost predicate Accounted()
      reads this
    {
      && messageCount == |accepted| <= limits.maximumMessages
      && nextSequence == messageCount + 1
      && inputBytes == InputSum(accepted) && outputBytes == OutputSum(accepted)
      && cpu == CpuSum(accepted) && peakMemory == PeakOf(accepted)
      && inputBytes + outputBytes <= limits.maximumSessionBytes
      && cpu <= limits.maximumCpu && peakMemory <= limits.maximumMemory
    }

    /** The state agrees with what was accepted: completion is exactly one Finalize, last. */
    ghost predicate Consistent()
      reads this
    {
      && WellOrdered(accepted, actions)
      && (if state.Completed? then FinalizedLast(accepted) else NoneFinalize(accepted))
      && violations == (if state.Failed? then 1 else 0)
      && (!state.Failed? ==> observationCount == ProducedCount(accepted) <= maximumObservations)
      && ProducedCount(accepted) <= observationCount <= maximumObservations + 1
      && ProducedCount(accepted) <= maximumObservations
      && !externalIo
    }

    ghost predicate Logged()
      reads this, audit
    {
      && audit.Valid() && audit.hash == LinkHash(digest) && audit.genesis == grant
      && audit.records != [] && auditTail == audit.tail
    }

    ghost predicate Valid()
      reads this, audit
    {
      ValidLimits(limits) && limitsSha == digest(LimitsMaterial(limits)) && Accounted() && Consistent() && Logged()
    }

    constructor (digest: Digest, manifest: Manifest, g: Grant, profile: Profile, now: nat)
      requires ValidLimits(manifest.limits)
      ensures Valid() && fresh(audit) && state == Open && accepted == []
      ensures actions == g.actions && limits == manifest.limits && expiresAt == g.expiresAt && grant == g.sha
      ensures this.profile == g.profile && policy == g.policy && maximumObservations == profile.maximumObservations
    {
      var seed := digest(SessionSeed(g.sha, g.runId, g.workerId, now));
      var id := Ascii("adapter-session-") + seed[..24];
      var limitsDigest := digest(LimitsMaterial(manifest.limits));
      var log := new Chain(LinkHash(digest), g.sha);
      var _ := log.Append(SessionOpened(id, manifest.sha, profile.sha, limitsDigest));
      this.digest, sessionId, runId, workerId, policy := digest, id, g.runId, g.workerId, g.policy;
      this.manifest, grant, this.profile, limitsSha := g.manifest, g.sha, g.profile, limitsDigest;
      actions, limits, expiresAt := g.actions, manifest.limits, g.expiresAt;
      maximumObservations := profile.maximumObservations;
      audit, auditTail := log, log.tail;
      state, messageCount, observationCount, inputBytes, outputBytes, cpu, peakMemory := Open, 0, 0, 0, 0, 0, 0;
      externalIo, violations, nextSequence := false, 0, 1;
      accepted := [];
    }

    /** A grant opens at most one session, in its window, for the manifest and profile it names. */
    static method OpenSession(digest: Digest, manifest: Manifest, g: Grant, profile: Profile, now: nat)
      returns (r: Result<Session, BoundaryError>)
      requires ValidLimits(manifest.limits)
      modifies g
      ensures r.Success? <==>
                && !old(g.consumed)
                && g.issuedAt <= now < g.expiresAt
                && g.manifest == manifest.sha && g.profile == profile.sha && g.policy == profile.policy
                && g.actions <= manifest.actions
      ensures r.Failure? ==> r.error == GrantInactive && g.consumed == old(g.consumed)
      ensures r.Success? ==> g.consumed && fresh(r.value) && fresh(r.value.audit) && r.value.Valid()
      ensures r.Success? ==> r.value.state == Open && r.value.accepted == [] && r.value.actions <= manifest.actions
    {
      if || g.consumed || now < g.issuedAt || now >= g.expiresAt || g.manifest != manifest.sha
         || g.profile != profile.sha || g.policy != profile.policy || !(g.actions <= manifest.actions) {
        return Failure(GrantInactive);
      }
      g.consumed := true;
      var session := new Session(digest, manifest, g, profile, now);
      return Success(session);
    }

    // ------------------------------------------------------------------ processing

    /** The envelope belongs to this session, comes next, and asks for a granted action. */
    predicate Bound(e: Envelope)
      reads this
    {
      e.sessionId == sessionId && e.sequence == nextSequence && e.profile == profile && e.action in actions
    }

    predicate WithinMessage(e: Envelope, u: Usage) {
      u.outputBytes <= limits.maximumMessageBytes && e.payloadBytes <= limits.maximumMessageBytes
    }

    predicate WithinSession(e: Envelope, u: Usage)
      reads this
    {
      && SaturatingAdd(messageCount, 1) <= limits.maximumMessages
      && SaturatingAdd(SaturatingAdd(inputBytes, e.payloadBytes), SaturatingAdd(outputBytes, u.outputBytes))
         <= limits.maximumSessionBytes
      && SaturatingAdd(cpu, u.cpu) <= limits.maximumCpu
      && Larger(peakMemory, u.peakMemory) <= limits.maximumMemory
    }

    /** Exactly the messages that are accepted. */
    predicate Admissible(e: Envelope, u: Usage, output: Bytes, outcome: Outcome, now: nat)
      reads this
    {
      && IsSha256(output) && state.Open? && now < expiresAt
      && Bound(e) && WithinMessage(e, u) && WithinSession(e, u)
      && OutcomeFits(e.action, outcome)
      && (Produced(Entry(e, u, outcome)) ==> observationCount + 1 <= maximumObservations)
    }

    /** Appends to the log and moves the recorded tail with it. */
    method AppendEvent(event: Event)
      requires Valid()
      modifies this`auditTail, audit
      ensures Valid()
      ensures audit.records == old(audit.records) + [Appended(audit.hash, old(audit.records), old(audit.tail), event)]
    {
      hide Verified, InputSum, OutputSum, CpuSum, PeakOf, ProducedCount, WellOrdered;
      var _ := audit.Append(event);
      auditTail := audit.tail;
    }

    method FailClosed(reason: FailReason)
      requires Valid() && !state.Failed? && !state.Completed?
      modifies this`state, this`violations, this`auditTail, audit
      ensures Valid() && state == Failed
      ensures audit.records
           == old(audit.records) + [Appended(audit.hash, old(audit.records), old(audit.tail), FailedClosed(sessionId,
               reason))]
    {
      hide Verified, InputSum, OutputSum, CpuSum, PeakOf, ProducedCount, WellOrdered;
      state, violations := Failed, SaturatingAdd(violations, 1);
      AppendEvent(FailedClosed(sessionId, reason));
    }

    method FailOnObservations()
      requires Valid() && state.Open? && observationCount == maximumObservations
      modifies this`state, this`violations, this`auditTail, this`observationCount, audit
      ensures Valid() && state == Failed
    {
      hide Verified, InputSum, OutputSum, CpuSum, PeakOf, ProducedCount, WellOrdered;
      FailClosed(ObservationLimit);
      observationCount := observationCount + 1;
    }

    /** Counts an admissible message. */
    method Count(e: Envelope, u: Usage, outcome: Outcome)
      requires ValidLimits(limits) && Accounted() && Consistent()
      requires state.Open? && Bound(e) && WithinSession(e, u) && OutcomeFits(e.action, outcome)
      requires Produced(Entry(e, u, outcome)) ==> observationCount + 1 <= maximumObservations
      modifies this
      ensures Accounted() && Consistent() && auditTail == old(auditTail)
      ensures accepted == old(accepted) + [Entry(e, u, outcome)]
      ensures state == (if e.action.Finalize? then Completed else Open)
    {
      hide Verified, InputSum, OutputSum, CpuSum, PeakOf, ProducedCount, WellOrdered;
      hide NoneFinalize, FinalizedLast;
      SumsAppend(accepted, Entry(e, u, outcome));
      OrderAppend(accepted, Entry(e, u, outcome), actions);
      messageCount := SaturatingAdd(messageCount, 1);
      inputBytes := SaturatingAdd(inputBytes, e.payloadBytes);
      outputBytes := SaturatingAdd(outputBytes, u.outputBytes);
      cpu := SaturatingAdd(cpu, u.cpu);
      peakMemory := Larger(peakMemory, u.peakMemory);
      if e.action.EmitObservation? && outcome.ProducedObservation? {
        observationCount := observationCount + 1;
      }
      nextSequence := SaturatingAdd(nextSequence, 1);
      if e.action.Finalize? {
        state := Completed;
      }
      accepted := accepted + [Entry(e, u, outcome)];
    }

    /** Records an admissible message. */
    method Accept(e: Envelope, u: Usage, output: Bytes, outcome: Outcome) returns (receipt: Receipt)
      requires Valid() && state.Open? && Bound(e) && WithinSession(e, u) && OutcomeFits(e.action, outcome)
      requires Produced(Entry(e, u, outcome)) ==> observationCount + 1 <= maximumObservations
      modifies this, audit
      ensures Valid() && accepted == old(accepted) + [Entry(e, u, outcome)]
      ensures state == (if e.action.Finalize? then Completed else Open)
      ensures receipt == Receipt(e.sequence, e.action, outcome, output, messageCount, inputBytes, outputBytes, cpu,
                                 peakMemory, state, auditTail)
      ensures |audit.records| == |old(audit.records)| + 1
    {
      hide Verified, InputSum, OutputSum, CpuSum, PeakOf, ProducedCount, WellOrdered;
      Count(e, u, outcome);
      AppendEvent(EnvelopeProcessed(sessionId, e, output, u.outputBytes, outcome));
      receipt := Receipt(e.sequence, e.action, outcome, output, messageCount, inputBytes, outputBytes, cpu, peakMemory,
                         state, auditTail);
    }

    /**
     * A message is accepted exactly when it is admissible. A rejection either leaves the session as
     * it was or, for an expired grant or an exceeded quota, fails it closed.
     */
    method Execute(e: Envelope, u: Usage, output: Bytes, outcome: Outcome, now: nat)
      returns (r: Result<Receipt, BoundaryError>)
      requires Valid()
      modifies this, audit
      ensures Valid()
      ensures r.Success? <==> old(Admissible(e, u, output, outcome, now))
      ensures r.Success? ==> accepted == old(accepted) + [Entry(e, u, outcome)]
      ensures r.Success? ==> state == (if e.action.Finalize? then Completed else Open)
      ensures r.Failure? ==> accepted == old(accepted)
      ensures r.Failure? ==> state == (if r.error.GrantInactive? || r.error.QuotaExceeded? then Failed else old(state))
      ensures r.Failure? && !r.error.GrantInactive? && !r.error.QuotaExceeded? ==> unchanged(this) && unchanged(audit)
      ensures old(!state.Open?) ==> r.Failure? && unchanged(this) && unchanged(audit)
    {
      hide Verified, InputSum, OutputSum, CpuSum, PeakOf, ProducedCount, WellOrdered;
      if !IsSha256(output) {
        return Failure(InvalidDigest);
      }
      if !state.Open? {
        return Failure(InvalidSessionTransition);
      }
      if now >= expiresAt {
        FailClosed(GrantExpired);
        return Failure(GrantInactive);
      }
      if !Bound(e) {
        return Failure(InvalidEnvelope);
      }
      if !WithinMessage(e, u) {
        FailClosed(MessageByteLimit);
        return Failure(QuotaExceeded);
      }
      if !WithinSession(e, u) {
        FailClosed(SessionResourceLimit);
        return Failure(QuotaExceeded);
      }
      if !OutcomeFits(e.action, outcome) {
        return Failure(InvalidEnvelope);
      }
      if Produced(Entry(e, u, outcome)) && observationCount + 1 > maximumObservations {
        FailOnObservations();
        return Failure(QuotaExceeded);
      }
      var receipt := Accept(e, u, output, outcome);
      r := Success(receipt);
    }

    method RequestCancel() returns (ok: bool)
      requires Valid()
      modifies this`state, this`auditTail, audit
      ensures Valid() && ok == old(state).Open?
      ensures state == (if ok then Cancelling else old(state))
      ensures !ok ==> unchanged(this) && unchanged(audit)
    {
      hide Verified, InputSum, OutputSum, CpuSum, PeakOf, ProducedCount, WellOrdered;
      if !state.Open? {
        return false;
      }
      state := Cancelling;
      AppendEvent(SessionTransition(sessionId, state));
      return true;
    }

    method AcknowledgeCancel() returns (ok: bool)
      requires Valid()
      modifies this`state, this`auditTail, audit
      ensures Valid() && ok == old(state).Cancelling?
      ensures state == (if ok then Cancelled else old(state))
      ensures !ok ==> unchanged(this) && unchanged(audit)
    {
      hide Verified, InputSum, OutputSum, CpuSum, PeakOf, ProducedCount, WellOrdered;
      if !state.Cancelling? {
        return false;
      }
      state := Cancelled;
      AppendEvent(SessionTransition(sessionId, state));
      return true;
    }

    method EmergencyStop() returns (ok: bool)
      requires Valid()
      modifies this`state, this`auditTail, audit
      ensures Valid() && ok == !Terminal(old(state))
      ensures state == (if ok then EmergencyStopped else old(state))
      ensures !ok ==> unchanged(this) && unchanged(audit)
    {
      hide Verified, InputSum, OutputSum, CpuSum, PeakOf, ProducedCount, WellOrdered;
      if Terminal(state) {
        return false;
      }
      state := EmergencyStopped;
      AppendEvent(SessionTransition(sessionId, state));
      return true;
    }
  }

  // ------------------------------------------------------------------- certification

  datatype CertificateBody = CertificateBody(
    certificateId: Bytes,
    authorityId: Bytes,
    sessionId: Bytes,
    runId: Bytes,
    workerId: Bytes,
    policy: Bytes,
    manifest: Bytes,
    grant: Bytes,
    profile: Bytes,
    limits: Bytes,
    sessionTail: Bytes,
    registryTail: Bytes,
    messageCount: nat,
    observationCount: nat,
    externalIo: bool,
    violations: nat)

  datatype Certificate = Certificate(body: CertificateBody, sha: Bytes)

  predicate CertificateVerifies(d: Digest, c: Certificate) {
    && IsSha256(c.body.policy) && IsSha256(c.body.manifest) && IsSha256(c.body.grant) && IsSha256(c.body.profile)
    && IsSha256(c.body.limits) && IsSha256(c.body.sessionTail) && IsSha256(c.body.registryTail) && IsSha256(c.sha)
    && c.sha == d(CertificateMaterial(c.body))
    && c.body.messageCount != 0 && !c.body.externalIo && c.body.violations == 0
  }

  class Registry {
    const digest: Digest
    const policy: Sha256
    var profiles: map<Bytes, Profile>
    const audit: Log

    ghost predicate Valid()
      reads this, audit
    {
      audit.Valid() && audit.hash == LinkHash(digest)
    }

    constructor (digest: Digest, policy: Sha256, genesis: Sha256)
      ensures Valid() && fresh(audit) && profiles == map[] && this.policy == policy
    {
      this.digest, this.policy, profiles := digest, policy, map[];
      audit := new Chain(LinkHash(digest), genesis);
    }

    method Register(profile: Profile) returns (ok: bool)
      requires Valid()
      modifies this, audit
      ensures Valid() && ok == (profile.policy == policy && profile.profileId !in old(profiles))
      ensures profiles == if ok then old(profiles)[profile.profileId := profile] else old(profiles)
      ensures ok ==> ContainsExact(profile)
    {
      if profile.policy != policy || profile.profileId in profiles {
        return false;
      }
      profiles := profiles[profile.profileId := profile];
      var _ := audit.Append(ProfileRegistered(profile.profileId, profile.sha));
      return true;
    }

    predicate ContainsExact(profile: Profile)
      reads this
    {
      profile.profileId in profiles && profiles[profile.profileId].sha == profile.sha
    }
  }

  /** The certificate drawn up for a session under a registry. */
  function Draft(d: Digest, authorityId: Bytes, s: Session, registryTail: Sha256): Certificate
    reads s
  {
    var seed := d(CertificateSeed(authorityId, s.sessionId, s.auditTail, registryTail));
    var body := CertificateBody(
      Ascii("adapter-conformance-") + seed[..24], authorityId, s.sessionId, s.runId, s.workerId, s.policy, s.manifest,
      s.grant, s.profile, s.limitsSha, s.auditTail, registryTail, s.messageCount, s.observationCount, s.externalIo,
      s.violations);
    Certificate(body, d(CertificateMaterial(body)))
  }

  /** A completed, untampered session satisfies every safety condition that a certificate states. */
  lemma CompletedIsSafe(s: Session, d: Digest, authorityId: Bytes, registryTail: Sha256)
    requires s.Valid() && s.state.Completed?
    ensures s.messageCount == |s.accepted| != 0 && !s.externalIo && s.violations == 0
    ensures s.limitsSha == s.digest(LimitsMaterial(s.limits)) && s.auditTail == s.audit.tail
    ensures CertificateVerifies(d, Draft(d, authorityId, s, registryTail))
  {
    hide Verified;
  }

  class Authority {
    const digest: Digest
    const authorityId: Bytes
    const policy: Sha256
    const audit: Log

    constructor (digest: Digest, authorityId: Bytes, policy: Sha256, genesis: Sha256)
      ensures this.digest == digest && this.policy == policy && fresh(audit) && audit.Valid()
    {
      this.digest, this.authorityId, this.policy := digest, authorityId, policy;
      audit := new Chain(LinkHash(digest), genesis);
    }

    /**
     * For an untampered session and registry the only reasons to refuse are an incomplete session
     * and a policy or profile that does not match: the remaining conditions and the certificate's
     * own verification never fail, and the certified tail is the verified tail of the log.
     */
    method Certify(session: Session, registry: Registry, profile: Profile) returns (r: Result<Certificate,
        BoundaryError>)
      requires audit != session.audit && audit != registry.audit
      modifies audit
      ensures r.Success? ==> session.audit.Valid() && registry.audit.Valid() && CertificateVerifies(digest, r.value)
      ensures r.Success? ==> r.value == Draft(digest, authorityId, session, registry.audit.tail)
      ensures session.Valid() && registry.Valid() && digest == session.digest ==>
                (r.Success? <==>
                  && session.state.Completed?
                  && session.policy == policy && session.policy == profile.policy && session.profile == profile.sha
                  && registry.ContainsExact(profile))
      ensures session.Valid() && r.Success? ==>
                && r.value.body.sessionTail == session.audit.tail
                && r.value.body.messageCount == |session.accepted|
      ensures |audit.records| == |old(audit.records)| + if r.Success? then 1 else 0
    {
      hide Verified, InputSum, OutputSum, CpuSum, PeakOf, ProducedCount, LinkHash, WellOrdered, CertificateVerifies;
      var fault := session.audit.Verify();
      if fault.Some? {
        return Failure(AuditInvalid);
      }
      fault := registry.audit.Verify();
      if fault.Some? {
        return Failure(AuditInvalid);
      }
      if session.Valid() && session.state.Completed? {
        CompletedIsSafe(session, digest, authorityId, registry.audit.tail);
      }
      if || !session.state.Completed? || session.policy != policy || session.policy != profile.policy
         || session.profile != profile.sha || !registry.ContainsExact(profile) || session.messageCount == 0
         || session.externalIo || session.violations != 0
         || session.limitsSha != digest(LimitsMaterial(session.limits)) {
        return Failure(CertificationDenied);
      }
      var certificate := Draft(digest, authorityId, session, registry.audit.tail);
      if !CertificateVerifies(digest, certificate) {
        return Failure(CertificationDenied);
      }
      var _ := audit.Append(Certified(certificate.body.certificateId, session.sessionId, certificate.sha));
      r := Success(certificate);
    }
  }
}
