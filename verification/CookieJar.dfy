/** The cookie jar: each response is one transaction over the jar and the vault. */
module CookieJar {
  import opened Wrappers
  import opened Bytes
  import opened CookieSyntax
  import opened CookieStaging

  datatype Config = Config(maxHeaders: nat, maxRecords: nat, rotationNames: set<Bytes>)

  /** The arguments of one call: binding, origin, request target, Set-Cookie headers and the clock. */
  datatype Call = Call(binding: Binding, authority: Bytes, scheme: Bytes, target: Bytes, headers: seq<Bytes>, now: int)

  datatype Counts = Counts(inserted: nat, replaced: nat, deleted: nat, ignored: nat)

  datatype Commit = Commit(counts: Counts, superseded: nat, rotated: bool, before: nat, after: nat)

  // ------------------------------------------------------------------- the request

  function BindingFault(b: Binding): Option<JarError> {
    if !Identifier(b.runId) || !Identifier(b.workerId) || !Identifier(b.accountId) || !Identifier(b.tenantId)
       || !Identifier(b.roleId) then Some(InvalidIdentifier)
    else if b.hosts == {} || b.schemes == {} then Some(OriginOutsideBinding)
    else None
  }

  /** What the call asks for, before the jar or the vault is looked at. */
  function Preflight(c: Call, config: Config, foreign: Foreign): JarResult<(Origin, seq<Parsed>)> {
    if |c.headers| > config.maxHeaders then Failure(SetCookieHeaderLimit)
    else
      match NewOrigin(c.authority, c.scheme)
      case Failure(fault) => Failure(Refused(fault))
      case Success(origin) =>
        if !ValidRequestTarget(c.target) then Failure(InvalidRequestTarget)
        else if BindingFault(c.binding).Some? then Failure(BindingFault(c.binding).value)
        else if !Admits(c.binding, origin) then Failure(OriginOutsideBinding)
        else
          match ParseAll(c.headers, origin, c.target, c.now, foreign)
          case Failure(fault) => Failure(Refused(fault))
          case Success(ps) => Success((origin, ps))
  }

  /** What an admitted batch says about its origin and its mutations. */
  ghost predicate Examined(c: Call, foreign: Foreign, origin: Origin, ps: seq<Parsed>, batch: Batch) {
    && Admits(c.binding, origin)
    && batch.mutations == LastWins(ps) && WellFiled(batch.mutations, origin, foreign)
    && batch.superseded + |batch.mutations| == |c.headers|
  }

  method Examine(c: Call, config: Config, foreign: Foreign) returns (r: JarResult<(Origin, Batch)>)
    ensures match Preflight(c, config, foreign)
      case Failure(error) => r == Failure(error)
      case Success(found) => r.Success? && r.value.0 == found.0 && Examined(c, foreign, found.0, found.1, r.value.1)
  {
    hide NewOrigin, ValidRequestTarget, Settled, BindingFault, Admits, ParseAll, LastWins, WellFiled;
    if |c.headers| > config.maxHeaders {
      return Failure(SetCookieHeaderLimit);
    }
    var origin := NewOrigin(c.authority, c.scheme);
    if origin.Failure? {
      return Failure(Refused(origin.error));
    }
    OriginIsSettled(c.authority, c.scheme);
    if !ValidRequestTarget(c.target) {
      return Failure(InvalidRequestTarget);
    }
    if BindingFault(c.binding).Some? {
      return Failure(BindingFault(c.binding).value);
    }
    if !Admits(c.binding, origin.value) {
      return Failure(OriginOutsideBinding);
    }
    var batch := ParseBatch(c.headers, origin.value, c.target, c.now, foreign);
    if batch.Failure? {
      return Failure(Refused(batch.error));
    }
    r := Success((origin.value, batch.value));
  }

  // ------------------------------------------------------------- what a batch does

  function Inserted(records: Records, ms: Mutations): set<Key> {
    set k | k in ms && ms[k].Store? && k !in records
  }

  function Replaced(records: Records, ms: Mutations): set<Key> {
    set k | k in ms && ms[k].Store? && k in records
  }

  function Deleted(records: Records, ms: Mutations): set<Key> {
    set k | k in ms && ms[k].Delete? && k in records
  }

  function Ignored(records: Records, ms: Mutations): set<Key> {
    set k | k in ms && ms[k].Delete? && k !in records
  }

  function CountsOf(records: Records, ms: Mutations): Counts {
    Counts(|Inserted(records, ms)|, |Replaced(records, ms)|, |Deleted(records, ms)|, |Ignored(records, ms)|)
  }

  /** Every mutation is counted exactly once. */
  lemma CountsPartition(records: Records, ms: Mutations)
    ensures var c := CountsOf(records, ms); c.inserted + c.replaced + c.deleted + c.ignored == |ms|
  {
    var deletions := set k | k in ms && ms[k].Delete?;
    SplitSize(ms.Keys, StoreKeys(ms), deletions);
    SplitSize(StoreKeys(ms), Inserted(records, ms), Replaced(records, ms));
    SplitSize(deletions, Deleted(records, ms), Ignored(records, ms));
  }

  lemma SplitSize<T>(s: set<T>, a: set<T>, b: set<T>)
    requires a !! b && forall x :: x in s <==> x in a || x in b
    ensures |s| == |a| + |b|
  {
    assert s == a + b;
  }

  /** The size the commit leaves, as computed before it. */
  function ProspectiveCount(records: Records, ms: Mutations): nat {
    DeletedFew(records, ms);
    |records| + |Inserted(records, ms)| - |Deleted(records, ms)|
  }

  lemma DeletedFew(records: Records, ms: Mutations)
    ensures |Deleted(records, ms)| <= |records|
  {
    SplitSize(records.Keys, Deleted(records, ms), records.Keys - Deleted(records, ms));
  }

  /** Does this mutation end the session the old cookie stood for? */
  predicate Rotates(records: Records, ms: Mutations, names: set<Bytes>, k: Key) {
    && k in ms
    && (if k in records then ms[k].Delete? || records[k].valueSha != Some(ms[k].parsed.valueSha)
        else ms[k].Store? && Lower(ms[k].parsed.name) in names)
  }

  ghost predicate AnyRotates(records: Records, ms: Mutations, names: set<Bytes>, keys: set<Key>) {
    exists k :: k in keys && Rotates(records, ms, names, k)
  }

  function NextGeneration(generation: nat, rotated: bool): nat {
    if rotated then SaturatingAdd(generation, 1) else generation
  }

  // ---------------------------------------------------------------------- the commit

  /** after is before with the mutations of keys applied; generations aside. */
  ghost predicate Applied(before: Records, staged: Records, keys: set<Key>, after: Records) {
    && (forall k :: k in after <==> if k in keys then k in staged else k in before)
    && (forall k :: k in after ==>
          after[k].(generation := 0) == (if k in keys then staged[k] else before[k]).(generation := 0))
  }

  lemma AppliedStore(before: Records, staged: Records, keys: set<Key>, after: Records, key: Key, generation: nat)
    requires Applied(before, staged, keys, after) && key in staged
    ensures Applied(before, staged, keys + {key}, after[key := staged[key].(generation := generation)])
  {
  }

  lemma AppliedDelete(before: Records, staged: Records, keys: set<Key>, after: Records, key: Key)
    requires Applied(before, staged, keys, after) && key !in staged
    ensures Applied(before, staged, keys + {key}, after - {key})
  {
  }

  function WithGeneration(records: Records, generation: nat): Records {
    map k | k in records :: records[k].(generation := generation)
  }

  lemma AppliedRenumbered(before: Records, staged: Records, keys: set<Key>, after: Records, generation: nat)
    requires Applied(before, staged, keys, after)
    ensures Applied(before, staged, keys, WithGeneration(after, generation))
  {
  }

  /** The committed records are those of the headers applied one after another. */
  lemma AppliedIsFold(before: Records, ps: seq<Parsed>, staged: Records, after: Records,
                      live: Secrets, binding: Binding, origin: Origin, generation: nat)
    requires var ms := LastWins(ps);
      && Applied(before, staged, ms.Keys, after)
      && StagedFor(ms, StoreKeys(ms), staged, live, binding, origin, generation)
    ensures ViewOf(after) == ApplyHeaders(ViewOf(before), ps)
  {
    hide LastWins, ApplyHeaders, SecretFor, KeyOf;
    var ms := LastWins(ps);
    BatchRefinesFold(ViewOf(before), ps);
    var view := ApplyMutations(ViewOf(before), ms);
    assert ViewOf(after).Keys == view.Keys;
    forall k | k in after
      ensures ViewOf(after)[k] == view[k]
    {
      assert ContentOfRecord(after[k]) == ContentOfRecord(after[k].(generation := 0));
      assert k in ms ==> ContentOfRecord(staged[k]) == ContentOf(ms[k].parsed);
    }
  }

  /** |after| = |before| + inserted - deleted. */
  lemma AppliedSize(before: Records, ms: Mutations, staged: Records, after: Records)
    requires Applied(before, staged, ms.Keys, after) && staged.Keys == StoreKeys(ms)
    ensures |after| == ProspectiveCount(before, ms)
  {
    var kept := before.Keys - Deleted(before, ms);
    SplitSize(after.Keys, kept, Inserted(before, ms));
    SplitSize(before.Keys, Deleted(before, ms), kept);
  }

  lemma AppliedDistinct(before: Records, ms: Mutations, staged: Records, after: Records,
                        base: Secrets, next: nat, live: Secrets, next': nat)
    requires Applied(before, staged, ms.Keys, after)
    requires Distinct(before, next) && Staged(base, next, live, staged)
    requires next <= next' && forall h :: h in live ==> h < next'
    ensures Distinct(after, next')
  {
    forall k | k in after
      ensures after[k].handle == (if k in ms then staged[k] else before[k]).handle
      ensures after[k].handle < next' && (k in ms <==> next <= after[k].handle)
    {
      assert after[k].handle == after[k].(generation := 0).handle;
    }
  }

  /** Old handles of mutated keys leave the vault, new ones enter it, the other records keep theirs. */
  lemma AppliedLive(before: Records, ms: Mutations, staged: Records, after: Records, base: Secrets, next: nat,
                    live: Secrets)
    requires Applied(before, staged, ms.Keys, after)
    requires Distinct(before, next) && Staged(base, next, live, staged) && AllLive(before, base)
    ensures AllLive(after, live - HandlesOf(before, ms.Keys))
  {
    forall k | k in after
      ensures after[k].handle in live - HandlesOf(before, ms.Keys)
    {
      assert after[k].handle == after[k].(generation := 0).handle;
      assert k in ms ==> after[k].handle == staged[k].handle;
      assert k !in ms ==> after[k].handle == before[k].handle;
    }
  }

  lemma AppliedFit(before: Records, ms: Mutations, staged: Records, after: Records, base: Secrets, next: nat,
                      live: Secrets,
                      binding: Binding, origin: Origin, generation: nat, foreign: Foreign)
    requires Applied(before, staged, ms.Keys, after)
    requires Distinct(before, next) && Staged(base, next, live, staged) && AllFit(before, base)
    requires StagedFor(ms, StoreKeys(ms), staged, live, binding, origin, generation)
    requires Admits(binding, origin) && WellFiled(ms, origin, foreign)
    ensures AllFit(after, live - HandlesOf(before, ms.Keys))
  {
    hide SecretFor, KeyOf, ScopedTo, Admits, Fits, HandlesOf, WellFiled;
    forall k | k in after && after[k].handle in live
      ensures Fits(live[after[k].handle], after[k])
    {
      assert after[k].handle == after[k].(generation := 0).handle;
      if k in ms {
        var p := ms[k].parsed;
        StoredIsScoped(ms, k, origin, foreign);
        NewSecretWellScoped(binding, origin, p, foreign, staged[k].handle, generation);
        FitsAnyGeneration(live[staged[k].handle], staged[k], after[k]);
      } else {
        assert after[k].handle == before[k].handle;
        HandleWasIssued(base, next, live, staged, before[k].handle);
        FitsAnyGeneration(base[before[k].handle], before[k], after[k]);
      }
    }
  }

  lemma FitsAnyGeneration(secret: Secret, a: Record, b: Record)
    requires Fits(secret, a) && a.(generation := 0) == b.(generation := 0)
    ensures Fits(secret, b)
  {
    hide DomainMatches, SecurePrefix, HostPrefix, SeedKey;
    assert a.valueSha == a.(generation := 0).valueSha == b.valueSha;
    assert a.key == a.(generation := 0).key == b.key;
    assert a.hostOnly == a.(generation := 0).hostOnly == b.hostOnly;
    assert a.secure == a.(generation := 0).secure == b.secure;
  }

  lemma HandleWasIssued(base: Secrets, next: nat, live: Secrets, staged: Records, h: Handle)
    requires Staged(base, next, live, staged) && h in live && h < next
    ensures h in base && live[h] == base[h]
  {
  }

  // --------------------------------------------------------------- counting a commit

  /** Counters and rotation flag after the mutations of these keys. */
  ghost predicate Tally(before: Records, ms: Mutations, names: set<Bytes>, keys: set<Key>, c: Counts, rotated: bool) {
    && c.inserted == |keys * Inserted(before, ms)| && c.replaced == |keys * Replaced(before, ms)|
    && c.deleted == |keys * Deleted(before, ms)| && c.ignored == |keys * Ignored(before, ms)|
    && (rotated <==> AnyRotates(before, ms, names, keys))
  }

  function Count(c: Counts, existed: bool, m: Mutation): Counts {
    if m.Store? then
      if existed then c.(replaced := c.replaced + 1) else c.(inserted := c.inserted + 1)
    else if existed then c.(deleted := c.deleted + 1)
    else c.(ignored := c.ignored + 1)
  }

  lemma TallyStep(before: Records, ms: Mutations, names: set<Bytes>, keys: set<Key>, c: Counts, rotated: bool, key: Key)
    requires Tally(before, ms, names, keys, c, rotated) && key in ms && key !in keys
    ensures Tally(before, ms, names, keys + {key}, Count(c, key in before, ms[key]),
                  rotated || Rotates(before, ms, names, key))
  {
    hide Rotates;
    IntersectionGrows(keys, key, Inserted(before, ms));
    IntersectionGrows(keys, key, Replaced(before, ms));
    IntersectionGrows(keys, key, Deleted(before, ms));
    IntersectionGrows(keys, key, Ignored(before, ms));
    RotationGrows(before, ms, names, keys, key);
  }

  lemma IntersectionGrows<T>(keys: set<T>, key: T, s: set<T>)
    requires key !in keys
    ensures |(keys + {key}) * s| == |keys * s| + if key in s then 1 else 0
  {
    if key in s {
      assert (keys + {key}) * s == keys * s + {key};
    } else {
      assert (keys + {key}) * s == keys * s;
    }
  }

  lemma RotationGrows(before: Records, ms: Mutations, names: set<Bytes>, keys: set<Key>, key: Key)
    ensures AnyRotates(before, ms, names, keys + {key})
       <==> AnyRotates(before, ms, names, keys) || Rotates(before, ms, names, key)
  {
    hide Rotates;
    if AnyRotates(before, ms, names, keys) {
      var k :| k in keys && Rotates(before, ms, names, k);
      assert k in keys + {key};
    }
    if Rotates(before, ms, names, key) {
      assert key in keys + {key};
    }
  }

  lemma TallyAll(before: Records, ms: Mutations, names: set<Bytes>, c: Counts, rotated: bool)
    requires Tally(before, ms, names, ms.Keys, c, rotated)
    ensures c == CountsOf(before, ms)
  {
    hide Inserted, Replaced, Deleted, Ignored, AnyRotates;
    MutatedKeys(before, ms);
    SubsetMeets(Inserted(before, ms), ms.Keys);
    SubsetMeets(Replaced(before, ms), ms.Keys);
    SubsetMeets(Deleted(before, ms), ms.Keys);
    SubsetMeets(Ignored(before, ms), ms.Keys);
  }

  lemma MutatedKeys(before: Records, ms: Mutations)
    ensures Inserted(before, ms) <= ms.Keys && Replaced(before, ms) <= ms.Keys
    ensures Deleted(before, ms) <= ms.Keys && Ignored(before, ms) <= ms.Keys
  {
  }

  lemma SubsetMeets<T>(a: set<T>, b: set<T>)
    requires a <= b
    ensures b * a == a
  {
  }

  /** An unmutated record is as it was, so it decides rotation as it would have at the start. */
  lemma UntouchedRecord(before: Records, staged: Records, keys: set<Key>, now: Records, key: Key)
    requires Applied(before, staged, keys, now) && key !in keys
    ensures key in now <==> key in before
    ensures key in now ==> now[key].valueSha == before[key].valueSha
  {
    if key in now {
      assert now[key].valueSha == now[key].(generation := 0).valueSha;
    }
  }

  lemma RotatesAlike(before: Records, now: Records, ms: Mutations, names: set<Bytes>, key: Key)
    requires key in now <==> key in before
    requires key in now ==> now[key].valueSha == before[key].valueSha
    ensures Rotates(now, ms, names, key) <==> Rotates(before, ms, names, key)
  {
  }

  lemma RenumberedUniform(before: Records, staged: Records, keys: set<Key>, after: Records, old': nat, generation: nat)
    requires Applied(before, staged, keys, after) && Uniform(before, old') && Uniform(staged, old')
    ensures Uniform(WithGeneration(after, generation), generation)
  {
    forall k | k in after
      ensures after[k].key == k
    {
      assert after[k].key == after[k].(generation := 0).key;
    }
  }

  /** The state of a commit when the mutations of these keys were applied. */
  ghost predicate Committing(before: Records, staged: Records, ms: Mutations, names: set<Bytes>, generation: nat,
                             keys: set<Key>, now: Records, c: Counts, rotated: bool) {
    && Applied(before, staged, keys, now)
    && Tally(before, ms, names, keys, c, rotated)
    && (Uniform(before, generation) && Uniform(staged, generation) && !rotated ==> Uniform(now, generation))
  }

  function StepRecords(now: Records, staged: Records, key: Key, generation: nat): Records {
    if key in staged then now[key := staged[key].(generation := generation)] else now - {key}
  }

  lemma CommittingStep(before: Records, staged: Records, ms: Mutations, names: set<Bytes>, generation: nat,
                       keys: set<Key>, now: Records, c: Counts, rotated: bool, key: Key)
    requires Committing(before, staged, ms, names, generation, keys, now, c, rotated)
    requires key in ms && key !in keys
    ensures var rotated' := rotated || Rotates(now, ms, names, key);
      Committing(before, staged, ms, names, generation, keys + {key},
                 StepRecords(now, staged, key, NextGeneration(generation, rotated')),
                 Count(c, key in now, ms[key]), rotated')
  {
    hide Applied, Tally, Rotates;
    UntouchedRecord(before, staged, keys, now, key);
    RotatesAlike(before, now, ms, names, key);
    TallyStep(before, ms, names, keys, c, rotated, key);
    var rotated' := rotated || Rotates(now, ms, names, key);
    if key in staged {
      AppliedStore(before, staged, keys, now, key, NextGeneration(generation, rotated'));
    } else {
      AppliedDelete(before, staged, keys, now, key);
    }
  }

  lemma CommittingNothing(before: Records, staged: Records, ms: Mutations, names: set<Bytes>, generation: nat)
    ensures Committing(before, staged, ms, names, generation, {}, before, Counts(0, 0, 0, 0), false)
  {
  }

  /** What remains when every mutation was applied: one generation for all records. */
  lemma CommittingAll(before: Records, staged: Records, ms: Mutations, names: set<Bytes>, generation: nat,
                      now: Records, c: Counts, rotated: bool)
    requires Committing(before, staged, ms, names, generation, ms.Keys, now, c, rotated)
    ensures c == CountsOf(before, ms) && (rotated <==> AnyRotates(before, ms, names, ms.Keys))
    ensures var next := NextGeneration(generation, rotated);
      var after := if rotated then WithGeneration(now, next) else now;
      && Applied(before, staged, ms.Keys, after)
      && (Uniform(before, generation) && Uniform(staged, generation) ==> Uniform(after, next))
  {
    hide Applied, CountsOf, AnyRotates, WithGeneration;
    TallyAll(before, ms, names, c, rotated);
    var next := NextGeneration(generation, rotated);
    AppliedRenumbered(before, staged, ms.Keys, now, next);
    if Uniform(before, generation) && Uniform(staged, generation) {
      RenumberedUniform(before, staged, ms.Keys, now, generation, next);
    }
  }

  /** The records of these keys own pairwise different handles. */
  ghost predicate OwnHandles(records: Records, keys: set<Key>) {
    forall k, k' :: k in keys && k in records && k' in keys && k' in records && k != k' ==>
      records[k].handle != records[k'].handle
  }

  /** after is before without some of the handles in gone. */
  ghost predicate Without(before: Secrets, gone: set<Handle>, after: Secrets) {
    && (forall h :: h in after ==> h in before && after[h] == before[h])
    && (forall h :: h in before && h !in gone ==> h in after)
  }

  /** Revokes the handles that the records of these keys own, until one is found dead. */
  method RevokeOld(vault: Vault, records: Records, keys: set<Key>) returns (ok: bool)
    requires vault.Valid()
    modifies vault`entries
    ensures vault.Valid()
    ensures ok <==> OwnHandles(records, keys) && HandlesOf(records, keys) <= old(vault.entries.Keys)
    ensures ok ==> vault.entries == old(vault.entries) - HandlesOf(records, keys)
    ensures Without(old(vault.entries), HandlesOf(records, keys), vault.entries)
  {
    hide OwnHandles, HandlesOf, Without;
    ghost var base := vault.entries;
    var todo := keys * records.Keys;
    ghost var done: set<Key> := {};
    NoHandles(records, base);
    while todo != {}
      invariant vault.Valid() && done + todo == keys * records.Keys && done !! todo
      invariant HandlesOf(records, done) <= base.Keys && vault.entries == base - HandlesOf(records, done)
      invariant OwnHandles(records, done)
      decreases |todo|
    {
      var key :| key in todo;
      OwnHandle(records, keys, base, done, key);
      var revoked := vault.Revoke(records[key].handle);
      if !revoked {
        WithoutSome(records, keys, base, done + {key});
        return false;
      }
      done, todo := done + {key}, todo - {key};
    }
    AllHandles(records, keys);
    WithoutSome(records, keys, base, done);
    return true;
  }

  lemma OwnHandle(records: Records, keys: set<Key>, base: Secrets, done: set<Key>, key: Key)
    requires done <= keys && OwnHandles(records, done) && key in keys && key in records && key !in done
    ensures var h := records[key].handle;
      && (OwnHandles(records, keys) && HandlesOf(records, keys) <= base.Keys ==> h in base - HandlesOf(records, done))
      && (h in base - HandlesOf(records, done) ==> OwnHandles(records, done + {key}))
      && HandlesOf(records, done + {key}) == HandlesOf(records, done) + {h}
      && base - HandlesOf(records, done) - {h} == base - HandlesOf(records, done + {key})
  {
    var h := records[key].handle;
    assert HandlesOf(records, done + {key}) == HandlesOf(records, done) + {h};
    assert h in HandlesOf(records, keys);
    if h !in HandlesOf(records, done) {
      assert forall k :: k in done && k in records ==> records[k].handle in HandlesOf(records, done);
    }
  }

  lemma WithoutSome(records: Records, keys: set<Key>, base: Secrets, done: set<Key>)
    requires done <= keys
    ensures Without(base, HandlesOf(records, keys), base - HandlesOf(records, done))
  {
    assert HandlesOf(records, done) <= HandlesOf(records, keys);
  }

  lemma NoHandles(records: Records, base: Secrets)
    ensures OwnHandles(records, {}) && HandlesOf(records, {}) == {} && base - HandlesOf(records, {}) == base
  {
  }

  lemma AllHandles(records: Records, keys: set<Key>)
    ensures HandlesOf(records, keys * records.Keys) == HandlesOf(records, keys)
    ensures OwnHandles(records, keys * records.Keys) <==> OwnHandles(records, keys)
  {
  }

  // ----------------------------------------------------------------- the transaction

  /** Why a call is refused; the commit gives up only where two records share a handle. */
  ghost function Fault(records: Records, live: Secrets, accepts: (Secret, int) -> bool, c: Call, config: Config,
                       foreign: Foreign)
    : (fault: Option<JarError>)
    ensures fault.Some? ==> !fault.value.CookieScopeEmpty? && !fault.value.RollbackFailed?
    ensures OwnHandles(records, records.Keys) ==> fault != Some(CommitInvariant)
  {
    match Preflight(c, config, foreign)
    case Failure(error) => Some(error)
    case Success(found) =>
      var ms := LastWins(found.1);
      if ProspectiveCount(records, ms) > config.maxRecords then Some(CookieRecordLimit)
      else if !(HandlesOf(records, ms.Keys) <= live.Keys) then Some(VaultFailure(UnknownSecret))
      else if !Accepted(accepts, ms, c.binding, found.0, c.now, ms.Keys) then Some(VaultFailure(Rejected))
      else if !OwnHandles(records, ms.Keys) then Some(CommitInvariant)
      else None
  }

  /** The jar after a commit: the headers one by one, every header counted once, the limit kept. */
  ghost predicate JarCommitted(c: Call, config: Config, ps: seq<Parsed>, before: Records, generation: nat,
                               after: Records, commit: Commit) {
    var ms, counts := LastWins(ps), commit.counts;
    && ViewOf(after) == ApplyHeaders(ViewOf(before), ps)
    && counts == CountsOf(before, ms)
    && counts.inserted + counts.replaced + counts.deleted + counts.ignored + commit.superseded == |c.headers|
    && |after| == |before| + counts.inserted - counts.deleted && |after| <= config.maxRecords
    && (commit.rotated <==> AnyRotates(before, ms, config.rotationNames, ms.Keys))
    && commit.before == generation && commit.after == NextGeneration(generation, commit.rotated)
  }

  /** The vault after a commit: old handles of mutated keys gone, one new secret for each stored cookie. */
  ghost predicate VaultCommitted(binding: Binding, origin: Origin, ms: Mutations, before: Records, base: Secrets,
                                 after: Records, live: Secrets) {
    && live.Keys == (base.Keys - HandlesOf(before, ms.Keys)) + HandlesOf(after, StoreKeys(ms))
    && HandlesOf(after, StoreKeys(ms)) !! base.Keys
    && (forall h :: h in live && h in base ==> live[h] == base[h])
    && (forall k :: k in StoreKeys(ms) ==>
          && k in after && after[k].handle in live
          && live[after[k].handle] == SecretFor(binding, origin, ms[k].parsed))
    && (forall k, k' :: k in StoreKeys(ms) && k' in StoreKeys(ms) && k != k' ==>
          k in after && k' in after && after[k].handle != after[k'].handle)
  }

  ghost predicate Invariant(records: Records, generation: nat, live: Secrets, next: nat) {
    && Uniform(records, generation) && Distinct(records, next)
    && AllLive(records, live) && AllFit(records, live)
  }

  lemma JarIsCommitted(c: Call, config: Config, foreign: Foreign, origin: Origin, ps: seq<Parsed>, batch: Batch,
                       before: Records, generation: nat,
                       staged: Records, live: Secrets, after: Records, rotated: bool)
    requires var ms := LastWins(ps);
      && Examined(c, foreign, origin, ps, batch) && ProspectiveCount(before, ms) <= config.maxRecords
      && StagedFor(ms, StoreKeys(ms), staged, live, c.binding, origin, generation)
      && Applied(before, staged, ms.Keys, after)
      && (rotated <==> AnyRotates(before, ms, config.rotationNames, ms.Keys))
    ensures JarCommitted(c, config, ps, before, generation, after,
                         Commit(CountsOf(before, LastWins(ps)), batch.superseded, rotated, generation,
                                NextGeneration(generation, rotated)))
  {
    hide LastWins, ApplyHeaders, Applied, AnyRotates, ViewOf, WellFiled, Admits, SecretFor, RecordFor, StoreKeys;
    var ms := LastWins(ps);
    AppliedIsFold(before, ps, staged, after, live, c.binding, origin, generation);
    AppliedSize(before, ms, staged, after);
    CountsPartition(before, ms);
  }

  lemma AppliedHandles(before: Records, staged: Records, keys: set<Key>, after: Records, k: Key)
    requires Applied(before, staged, keys, after) && k in keys && k in staged
    ensures k in after && after[k].handle == staged[k].handle
  {
    assert after[k].handle == after[k].(generation := 0).handle;
  }

  lemma VaultIsCommitted(ms: Mutations, binding: Binding, origin: Origin, before: Records, base: Secrets, next: nat,
                         staged: Records, live: Secrets,
                         after: Records, generation: nat)
    requires HandlesOf(before, ms.Keys) <= base.Keys
    requires Staged(base, next, live, staged)
    requires StagedFor(ms, StoreKeys(ms), staged, live, binding, origin, generation)
    requires Applied(before, staged, ms.Keys, after)
    ensures VaultCommitted(binding, origin, ms, before, base, after, live - HandlesOf(before, ms.Keys))
  {
    hide Applied, SecretFor, RecordFor;
    forall k | k in StoreKeys(ms)
      ensures k in after && after[k].handle == staged[k].handle
    {
      AppliedHandles(before, staged, ms.Keys, after, k);
    }
    ExchangedHandles(base, next, live, staged, HandlesOf(before, ms.Keys));
    SameHandles(staged, after, StoreKeys(ms));
  }

  lemma ExchangedHandles(base: Secrets, next: nat, live: Secrets, staged: Records, gone: set<Handle>)
    requires Staged(base, next, live, staged) && gone <= base.Keys
    ensures (live - gone).Keys == (base.Keys - gone) + HandlesOf(staged, staged.Keys)
    ensures HandlesOf(staged, staged.Keys) !! base.Keys
  {
  }

  lemma SameHandles(a: Records, b: Records, keys: set<Key>)
    requires forall k :: k in keys ==> k in a && k in b && a[k].handle == b[k].handle
    ensures HandlesOf(a, keys) == HandlesOf(b, keys)
  {
  }

  lemma InvariantKept(ms: Mutations, binding: Binding, origin: Origin, foreign: Foreign, before: Records,
                      generation: nat, base: Secrets, next: nat,
                      staged: Records, live: Secrets, after: Records, generation': nat, next': nat)
    requires Invariant(before, generation, base, next)
    requires Admits(binding, origin) && WellFiled(ms, origin, foreign)
    requires Staged(base, next, live, staged)
    requires StagedFor(ms, StoreKeys(ms), staged, live, binding, origin, generation)
    requires Applied(before, staged, ms.Keys, after) && Uniform(after, generation')
    requires next <= next' && forall h :: h in live ==> h < next'
    ensures Invariant(after, generation', live - HandlesOf(before, ms.Keys), next')
  {
    hide Staged, StagedFor, Applied, Uniform, Distinct, AllLive, AllFit, Admits, WellFiled, HandlesOf, StoreKeys;
    AppliedDistinct(before, ms, staged, after, base, next, live, next');
    AppliedLive(before, ms, staged, after, base, next, live);
    AppliedFit(before, ms, staged, after, base, next, live, binding, origin, generation, foreign);
  }

  // --------------------------------------------------------------------------- the jar

  class Jar {
    const config: Config
    var records: Records
    var generation: nat
    var nextTransaction: nat

    constructor (config: Config)
      ensures this.config == config && records == map[] && generation == 1 && nextTransaction == 1
    {
      this.config, records, generation, nextTransaction := config, map[], 1, 1;
    }

    /** Applies one mutation; the staged record of a stored cookie is always there. */
    method CommitOne(key: Key, mutations: Mutations, staged: Records, c: Counts,
                     rotated: bool) returns (r: JarResult<(Counts, bool)>)
      requires key in mutations && staged.Keys == StoreKeys(mutations)
      modifies `records
      ensures r.Success? && r.value.0 == Count(c, key in old(records), mutations[key])
      ensures r.value.1 == (rotated || Rotates(old(records), mutations, config.rotationNames, key))
      ensures records == StepRecords(old(records), staged, key, NextGeneration(generation, r.value.1))
    {
      hide Rotates, Count, NextGeneration;
      var counts := Count(c, key in records, mutations[key]);
      var rotates := rotated || Rotates(records, mutations, config.rotationNames, key);
      if mutations[key].Delete? {
        records := records - {key};
      } else if key !in staged {
        return Failure(CommitInvariant);
      } else {
        records := records[key := staged[key].(generation := NextGeneration(generation, rotates))];
      }
      r := Success((counts, rotates));
    }

    method CommitEach(mutations: Mutations, staged: Records) returns (r: JarResult<(Counts, bool)>)
      requires staged.Keys == StoreKeys(mutations)
      modifies `records
      ensures r.Success?
      ensures Committing(old(records), staged, mutations, config.rotationNames, generation, mutations.Keys, records,
                         r.value.0, r.value.1)
    {
      hide Committing, Rotates, Count, NextGeneration, StoreKeys, StepRecords;
      ghost var before := records;
      r := Success((Counts(0, 0, 0, 0), false));
      var todo := mutations.Keys;
      ghost var done: set<Key> := {};
      CommittingNothing(before, staged, mutations, config.rotationNames, generation);
      while todo != {}
        invariant done + todo == mutations.Keys && done !! todo && r.Success?
        invariant Committing(before, staged, mutations, config.rotationNames, generation, done, records, r.value.0,
                             r.value.1)
        decreases |todo|
      {
        var key :| key in todo;
        CommittingStep(before, staged, mutations, config.rotationNames, generation, done, records, r.value.0,
                       r.value.1, key);
        r := CommitOne(key, mutations, staged, r.value.0, r.value.1);
        if r.Failure? {
          return;
        }
        done, todo := done + {key}, todo - {key};
      }
    }

    /** Applies the mutations in any order: counters, rotation and generation do not depend on it. */
    method CommitBatch(mutations: Mutations, staged: Records) returns (r: JarResult<(Counts, bool)>)
      requires staged.Keys == StoreKeys(mutations)
      modifies `records, `generation
      ensures r.Success? && r.value.0 == CountsOf(old(records), mutations)
      ensures r.value.1 <==> AnyRotates(old(records), mutations, config.rotationNames, mutations.Keys)
      ensures generation == NextGeneration(old(generation), r.value.1)
      ensures Applied(old(records), staged, mutations.Keys, records)
      ensures Uniform(old(records), old(generation)) && Uniform(staged, old(generation)) ==>
                Uniform(records, generation)
    {
      hide Committing, Applied, AnyRotates, CountsOf, Uniform, WithGeneration, StoreKeys;
      ghost var before := records;
      r := CommitEach(mutations, staged);
      if r.Success? {
        CommittingAll(before, staged, mutations, config.rotationNames, generation, records, r.value.0, r.value.1);
        if r.value.1 {
          generation := SaturatingAdd(generation, 1);
          records := WithGeneration(records, generation);
        }
      }
    }

    /** Stages the new secrets and revokes the old ones; a refusal or a shared handle leaves no new secret. */
    method Exchange(vault: Vault, mutations: Mutations, binding: Binding, origin: Origin, now: int,
                    ghost foreign: Foreign)
      returns (r: JarResult<Records>, ghost live: Secrets)
      requires vault.Valid() && Admits(binding, origin) && WellFiled(mutations, origin, foreign)
      requires HandlesOf(records, mutations.Keys) <= vault.entries.Keys
      modifies vault
      ensures vault.Valid() && old(vault.nextId) <= vault.nextId
      ensures var accepted := Accepted(vault.accepts, mutations, binding, origin, now, mutations.Keys);
        if !accepted then r == Failure(VaultFailure(Rejected)) && vault.entries == old(vault.entries)
        else if !OwnHandles(records, mutations.Keys) then
          && r == Failure(CommitInvariant)
          && Without(old(vault.entries), HandlesOf(records, mutations.Keys), vault.entries)
        else r.Success?
      ensures r.Success? ==>
                && Staged(old(vault.entries), old(vault.nextId), live, r.value)
                && StagedFor(mutations, StoreKeys(mutations), r.value, live, binding, origin, generation)
                && (forall h :: h in live ==> h < vault.nextId)
                && vault.entries == live - HandlesOf(records, mutations.Keys)
    {
      hide OwnHandles, Without, Admits, WellFiled, Accepted, Staged, StagedFor, HandlesOf;
      ghost var base, next := vault.entries, vault.nextId;
      r := Stage(vault, mutations, binding, origin, now, generation, foreign);
      live := vault.entries;
      if r.Success? {
        StagedKeepsBase(base, next, live, r.value);
        var revoked := RevokeOld(vault, records, mutations.Keys);
        if !revoked {
          ghost var left := StagedStill(base, next, live, r.value, HandlesOf(records, mutations.Keys), vault.entries);
          var undone := Rollback(vault, r.value, left, next);
          r := Failure(if undone then CommitInvariant else RollbackFailed);
        }
      }
    }

    /** One response, one transaction. */
    method ApplyResponse(vault: Vault, c: Call, foreign: Foreign) returns (r: JarResult<Commit>)
      requires vault.Valid()
      modifies `records, `generation, `nextTransaction, vault
      ensures vault.Valid() && old(vault.nextId) <= vault.nextId
      ensures r.Failure? ==> records == old(records) && generation == old(generation)
      ensures match old(Fault(records, vault.entries, vault.accepts, c, config, foreign))
        case None => r.Success?
        case Some(error) =>
          && r == Failure(error)
          && (error != CommitInvariant ==> vault.entries == old(vault.entries))
          && Without(old(vault.entries), HandlesOf(old(records), old(records).Keys), vault.entries)
      ensures r.Success? ==>
                && Preflight(c, config, foreign).Success?
                && var found := Preflight(c, config, foreign).value;
                   && JarCommitted(c, config, found.1, old(records), old(generation), records, r.value)
                   && VaultCommitted(c.binding, found.0, LastWins(found.1), old(records), old(vault.entries), records,
                                     vault.entries)
      ensures r.Success? ==> generation == r.value.after && nextTransaction == SaturatingAdd(old(nextTransaction), 1)
      ensures r.Failure? ==>
                nextTransaction == old(nextTransaction) || nextTransaction == SaturatingAdd(old(nextTransaction), 1)
      ensures old(generation) <= U64_MAX ==> old(generation) <= generation <= U64_MAX
      ensures old(Uniform(records, generation)) ==> Uniform(records, generation)
      ensures old(Invariant(records, generation, vault.entries, vault.nextId)) ==>
                Invariant(records, generation, vault.entries, vault.nextId)
    {
      hide Preflight, Examined, LastWins, ProspectiveCount, HandlesOf, Accepted, Distinct, Uniform, AllLive, AllFit,
        OwnHandles, Without, Staged, StagedFor, Applied, JarCommitted, VaultCommitted, CountsOf,
        AnyRotates, StoreKeys, Admits, WellFiled;
      ghost var before, base, next := records, vault.entries, vault.nextId;
      var examined := Examine(c, config, foreign);
      WithoutNone(base, HandlesOf(records, records.Keys));
      if examined.Failure? {
        return Failure(examined.error);
      }
      var origin, batch := examined.value.0, examined.value.1;
      ghost var ps := Preflight(c, config, foreign).value.1;
      ExaminedParts(c, foreign, origin, ps, batch);
      var mutations := batch.mutations;
      if ProspectiveCount(records, mutations) > config.maxRecords {
        return Failure(CookieRecordLimit);
      }
      if !(HandlesOf(records, mutations.Keys) <= vault.entries.Keys) {
        return Failure(VaultFailure(UnknownSecret));
      }
      nextTransaction := SaturatingAdd(nextTransaction, 1);
      var staged, live := Exchange(vault, mutations, c.binding, origin, c.now, foreign);
      if staged.Failure? {
        if Without(base, HandlesOf(records, mutations.Keys), vault.entries) {
          WithoutMore(base, records, mutations.Keys, vault.entries);
        }
        DistinctOwns(records, mutations.Keys, next);
        DistinctLater(records, next, vault.nextId);
        return Failure(staged.error);
      }
      var generationBefore := generation;
      StagedIsUniform(mutations, staged.value, live, c.binding, origin, generation, foreign);
      var committed := CommitBatch(mutations, staged.value);
      JarIsCommitted(c, config, foreign, origin, ps, batch, before, generationBefore, staged.value, live, records,
                     committed.value.1);
      VaultIsCommitted(mutations, c.binding, origin, before, base, next, staged.value, live, records, generationBefore);
      if Invariant(before, generationBefore, base, next) {
        InvariantKept(mutations, c.binding, origin, foreign, before, generationBefore, base, next, staged.value, live,
                      records,
                      generation, vault.nextId);
      }
      r := Success(Commit(committed.value.0, batch.superseded, committed.value.1, generationBefore, generation));
    }

    /** Empties the jar; the vault loses the jar's handles, all of them unless one is dead or shared. */
    method Purge(vault: Vault, reason: Bytes) returns (r: JarResult<nat>)
      requires vault.Valid()
      modifies `records, `generation, `nextTransaction, vault`entries
      ensures vault.Valid()
      ensures !Identifier(reason) ==>
                && r == Failure(InvalidIdentifier)
                && records == old(records) && generation == old(generation) && vault.entries == old(vault.entries)
      ensures Identifier(reason) ==>
                && records == map[]
                && (r.Success? <==> old(AllLive(records, vault.entries) && OwnHandles(records, records.Keys)))
                && (r.Failure? ==> r.error == VaultFailure(UnknownSecret))
      ensures Without(old(vault.entries), HandlesOf(old(records), old(records).Keys), vault.entries)
      ensures r.Success? ==>
                && r.value == |old(records)|
                && generation == NextGeneration(old(generation), old(records) != map[])
                && vault.entries == old(vault.entries) - HandlesOf(old(records), old(records).Keys)
      ensures r.Failure? ==> generation == old(generation)
      ensures nextTransaction == if r.Success? then SaturatingAdd(old(nextTransaction), 1) else old(nextTransaction)
      ensures old(generation) <= U64_MAX ==> old(generation) <= generation <= U64_MAX
      ensures old(Invariant(records, generation, vault.entries, vault.nextId)) ==>
                Invariant(records, generation, vault.entries, vault.nextId)
    {
      hide Identifier, Distinct, AllLive, AllFit, HandlesOf, OwnHandles, Without;
      if !Identifier(reason) {
        WithoutNone(vault.entries, HandlesOf(records, records.Keys));
        return Failure(InvalidIdentifier);
      }
      var taken := records;
      records := map[];
      LiveHandles(taken, vault.entries);
      EmptyIsInvariant(vault.nextId);
      var revoked := RevokeOld(vault, taken, taken.Keys);
      if !revoked {
        return Failure(VaultFailure(UnknownSecret));
      }
      if |taken| > 0 {
        generation := SaturatingAdd(generation, 1);
      }
      nextTransaction := SaturatingAdd(nextTransaction, 1);
      r := Success(|taken|);
    }

    /** Files cookies that are in the vault already, the last handle of each key; a failure keeps what was filed. */
    method SeedFromVault(handles: seq<Handle>, vault: Vault) returns (r: JarResult<()>)
      requires vault.Valid()
      modifies `records
      ensures var seeding := SeedEach(old(records), vault.entries, handles, generation);
        && records == seeding.records
        && r == (if seeding.fault.Some? then Failure(seeding.fault.value)
                 else if |seeding.records| > config.maxRecords then Failure(CookieRecordLimit)
                 else Success(()))
      ensures old(Invariant(records, generation, vault.entries, vault.nextId)) ==>
                Invariant(records, generation, vault.entries, vault.nextId)
    {
      hide SeedOne, Invariant;
      ghost var whole := SeedEach(records, vault.entries, handles, generation);
      SeedKeepsInvariant(records, vault.entries, handles, generation, vault.nextId);
      assert handles[0..] == handles;
      for i := 0 to |handles|
        invariant whole == SeedEach(records, vault.entries, handles[i..], generation)
      {
        assert handles[i..][1..] == handles[i + 1..];
        var seed := SeedOne(vault.entries, handles[i], generation);
        if seed.Failure? {
          return Failure(seed.error);
        }
        if seed.value.Some? {
          records := records[seed.value.value.key := seed.value.value];
        }
      }
      if |records| > config.maxRecords {
        return Failure(CookieRecordLimit);
      }
      r := Success(());
    }
  }

  /** What rollback starts from when old handles are already gone: the new secrets are all still there. */
  lemma StagedStill(base: Secrets, next: nat, live: Secrets, staged: Records, gone: set<Handle>, now: Secrets)
    returns (left: Secrets)
    requires Staged(base, next, live, staged) && gone <= base.Keys && Without(live, gone, now)
    ensures Staged(left, next, now, staged) && Without(base, gone, left) && forall h :: h in left ==> h < next
  {
    left := now - HandlesOf(staged, staged.Keys);
    forall k | k in staged
      ensures staged[k].handle in now
    {
      assert staged[k].handle !in base;
    }
  }

  lemma WithoutNone(entries: Secrets, gone: set<Handle>)
    ensures Without(entries, gone, entries)
  {
  }

  /** Handles of some records are handles of all. */
  lemma WithoutMore(before: Secrets, records: Records, keys: set<Key>, after: Secrets)
    requires Without(before, HandlesOf(records, keys), after)
    ensures Without(before, HandlesOf(records, records.Keys), after)
  {
    assert HandlesOf(records, keys) <= HandlesOf(records, records.Keys);
  }

  // -------------------------------------------------------------------------- seeding

  /** The record of one handle, if it names a cookie. */
  function SeedOne(live: Secrets, handle: Handle, generation: nat): JarResult<Option<Record>> {
    if handle !in live then Failure(VaultFailure(UnknownSecret))
    else if !live[handle].isCookie then Success(None)
    else
      match SeedRecord(live[handle], handle, generation)
      case Failure(fault) => Failure(Refused(fault))
      case Success(record) => Success(Some(record))
  }

  function SeedRecord(secret: Secret, handle: Handle, generation: nat): CookieResult<Record> {
    var key :- SeedKey(secret);
    Success(Record(key, handle, secret.binding.hosts == {key.domain}, secret.secure, secret.httpOnly, secret.sameSite,
                   secret.expires, None, generation))
  }

  datatype Seeding = Seeding(records: Records, fault: Option<JarError>)

  function SeedEach(records: Records, live: Secrets, handles: seq<Handle>, generation: nat): Seeding
    decreases |handles|
  {
    if handles == [] then Seeding(records, None)
    else
      match SeedOne(live, handles[0], generation)
      case Failure(error) => Seeding(records, Some(error))
      case Success(None) => SeedEach(records, live, handles[1..], generation)
      case Success(Some(r)) => SeedEach(records[r.key := r], live, handles[1..], generation)
  }

  /** Every handle is known to the vault, and a cookie has a host and a path that can be filed. */
  predicate Seedable(live: Secrets, handle: Handle) {
    handle in live && (live[handle].isCookie ==> SeedKey(live[handle]).Success?)
  }

  /** Seeding goes through exactly when every handle is seedable. */
  lemma {:induction false} SeedSucceedsIff(records: Records, live: Secrets, handles: seq<Handle>, generation: nat)
    ensures SeedEach(records, live, handles, generation).fault.None?
       <==> forall i :: 0 <= i < |handles| ==> Seedable(live, handles[i])
    decreases |handles|
  {
    hide SeedKey;
    if handles != [] {
      var next := match SeedOne(live, handles[0], generation)
        case Success(Some(r)) => records[r.key := r]
        case _ => records;
      SeedSucceedsIff(next, live, handles[1..], generation);
      assert Seedable(live, handles[0]) <==> SeedOne(live, handles[0], generation).Success?;
      assert forall i :: 0 < i < |handles| ==> handles[i] == handles[1..][i - 1];
    }
  }

  /** The handle is that of a cookie filed under k. */
  predicate FilesUnder(live: Secrets, handle: Handle, k: Key) {
    handle in live && live[handle].isCookie && SeedKey(live[handle]) == Success(k)
  }

  /** A key that no handle is filed under keeps its record. */
  lemma {:induction false} SeedKeepsOthers(records: Records, live: Secrets, handles: seq<Handle>, generation: nat,
                                           k: Key)
    requires forall i :: 0 <= i < |handles| ==> !FilesUnder(live, handles[i], k)
    ensures var after := SeedEach(records, live, handles, generation).records;
      (k in after <==> k in records) && (k in after ==> after[k] == records[k])
    decreases |handles|
  {
    hide SeedKey;
    if handles != [] {
      var next := match SeedOne(live, handles[0], generation)
        case Success(Some(r)) => records[r.key := r]
        case _ => records;
      assert !FilesUnder(live, handles[0], k);
      assert forall i :: 0 <= i < |handles[1..]| ==> handles[1..][i] == handles[i + 1];
      SeedKeepsOthers(next, live, handles[1..], generation, k);
    }
  }

  /** The last handle filed under a key gives its record: that secret's cookie, at the jar's generation. */
  lemma {:induction false} LastSeedWins(records: Records, live: Secrets, handles: seq<Handle>, generation: nat,
                                        i: nat, k: Key)
    requires SeedEach(records, live, handles, generation).fault.None?
    requires i < |handles| && FilesUnder(live, handles[i], k)
    requires forall j :: i < j < |handles| ==> !FilesUnder(live, handles[j], k)
    ensures var after := SeedEach(records, live, handles, generation).records;
      k in after && SeedRecord(live[handles[i]], handles[i], generation) == Success(after[k])
    decreases |handles|
  {
    hide SeedKey;
    var next := match SeedOne(live, handles[0], generation)
      case Success(Some(r)) => records[r.key := r]
      case _ => records;
    assert forall j :: 0 <= j < |handles[1..]| ==> handles[1..][j] == handles[j + 1];
    if i == 0 {
      SeedKeepsOthers(next, live, handles[1..], generation, k);
    } else {
      LastSeedWins(next, live, handles[1..], generation, i - 1, k);
    }
  }

  /** A handle fixes its secret and the secret its key, so filing one more record shares no handle. */
  lemma SeedOneKeepsInvariant(records: Records, live: Secrets, handle: Handle, generation: nat, next: nat)
    requires Invariant(records, generation, live, next) && forall h :: h in live ==> h < next
    requires SeedOne(live, handle, generation).Success? && SeedOne(live, handle, generation).value.Some?
    ensures var r := SeedOne(live, handle, generation).value.value;
      Invariant(records[r.key := r], generation, live, next)
  {
    hide SeedKey, WellScoped;
    var r := SeedOne(live, handle, generation).value.value;
    forall k | k in records && k != r.key
      ensures records[k].handle != handle
    {
      assert Fits(live[records[k].handle], records[k]);
    }
  }

  lemma {:induction false} SeedKeepsInvariant(records: Records, live: Secrets, handles: seq<Handle>, generation: nat,
                                              next: nat)
    requires forall h :: h in live ==> h < next
    ensures Invariant(records, generation, live, next) ==>
              Invariant(SeedEach(records, live, handles, generation).records, generation, live, next)
    decreases |handles|
  {
    hide Invariant, SeedOne;
    if handles != [] && SeedOne(live, handles[0], generation).Success? {
      match SeedOne(live, handles[0], generation).value
      case None => SeedKeepsInvariant(records, live, handles[1..], generation, next);
      case Some(r) =>
        if Invariant(records, generation, live, next) {
          SeedOneKeepsInvariant(records, live, handles[0], generation, next);
        }
        SeedKeepsInvariant(records[r.key := r], live, handles[1..], generation, next);
    }
  }

  lemma LiveHandles(records: Records, live: Secrets)
    ensures AllLive(records, live) <==> HandlesOf(records, records.Keys) <= live.Keys
  {
    if HandlesOf(records, records.Keys) <= live.Keys {
      forall k | k in records
        ensures records[k].handle in live
      {
        assert records[k].handle in HandlesOf(records, records.Keys);
      }
    }
  }

  /** An empty jar keeps the invariant whatever its generation and vault. */
  lemma EmptyIsInvariant(next: nat)
    ensures forall generation: nat, live: Secrets :: Invariant(map[], generation, live, next)
  {
  }

  lemma StagedKeepsBase(base: Secrets, next: nat, live: Secrets, staged: Records)
    requires Staged(base, next, live, staged)
    ensures base.Keys <= live.Keys && forall h :: h in base ==> h < next
  {
  }

  lemma ExaminedParts(c: Call, foreign: Foreign, origin: Origin, ps: seq<Parsed>, batch: Batch)
    requires Examined(c, foreign, origin, ps, batch)
    ensures Admits(c.binding, origin) && batch.mutations == LastWins(ps) && WellFiled(batch.mutations, origin, foreign)
  {
  }

  lemma DistinctOwns(records: Records, keys: set<Key>, next: nat)
    ensures Distinct(records, next) ==> OwnHandles(records, keys) && OwnHandles(records, records.Keys)
  {
  }

  lemma DistinctLater(records: Records, next: nat, next': nat)
    requires next <= next'
    ensures Distinct(records, next) ==> Distinct(records, next')
  {
  }

  lemma StagedIsUniform(ms: Mutations, staged: Records, live: Secrets, binding: Binding, origin: Origin,
                        generation: nat, foreign: Foreign)
    requires StagedFor(ms, StoreKeys(ms), staged, live, binding, origin, generation) && WellFiled(ms, origin, foreign)
    ensures staged.Keys == StoreKeys(ms) && Uniform(staged, generation)
  {
    hide SecretFor, ScopedTo;
  }
}
