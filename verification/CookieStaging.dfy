/** A batch of Set-Cookie headers: last header per key, scope of the new secrets, and staging in the vault. */
module CookieStaging {
  import opened Wrappers
  import opened Bytes
  import opened CookieSyntax

  datatype VaultError = Rejected | UnknownSecret

  datatype JarError =
    | SetCookieHeaderLimit
    | InvalidRequestTarget
    | InvalidIdentifier
    | OriginOutsideBinding
    | Refused(cookie: CookieFault)
    | CookieRecordLimit
    | CookieScopeEmpty
    | RollbackFailed
    | CommitInvariant
    | VaultFailure(vault: VaultError)

  type JarResult<+T> = Result<T, JarError>

  type Handle = nat

  datatype Key = Key(name: Bytes, domain: Bytes, path: Bytes)

  datatype Binding = Binding(
    runId: Bytes,
    workerId: Bytes,
    accountId: Bytes,
    tenantId: Bytes,
    roleId: Bytes,
    hosts: set<Bytes>,
    schemes: set<Bytes>)

  datatype Secret = Secret(
    isCookie: bool,
    value: Bytes,
    binding: Binding,
    key: Key,
    expires: Option<int>,
    secure: bool,
    httpOnly: bool,
    sameSite: SameSite)

  type Secrets = map<Handle, Secret>

  datatype Record = Record(
    key: Key,
    handle: Handle,
    hostOnly: bool,
    secure: bool,
    httpOnly: bool,
    sameSite: SameSite,
    expires: Option<int>,
    valueSha: Option<Bytes>,
    generation: nat)

  type Records = map<Key, Record>

  datatype Mutation = Store(parsed: Parsed) | Delete

  type Mutations = map<Key, Mutation>

  function KeyOf(p: Parsed): Key {
    Key(p.name, p.domain, p.path)
  }

  function MutationOf(p: Parsed): Mutation {
    if p.delete then Delete else Store(p)
  }

  // -------------------------------------------------------------------- the vault

  /** A secret store: an accepted secret gets a handle that was never live before. */
  class Vault {
    const accepts: (Secret, int) -> bool
    var entries: Secrets
    var nextId: nat

    ghost predicate Valid()
      reads this
    {
      forall h :: h in entries ==> h < nextId
    }

    constructor (accepts: (Secret, int) -> bool)
      ensures Valid() && entries == map[] && this.accepts == accepts
    {
      this.accepts, entries, nextId := accepts, map[], 1;
    }

    method Insert(secret: Secret, now: int) returns (r: Result<Handle, VaultError>)
      requires Valid()
      modifies this
      ensures Valid()
      ensures r.Success? <==> accepts(secret, now)
      ensures r.Success? ==> old(nextId) <= r.value < nextId && entries == old(entries)[r.value := secret]
      ensures r.Failure? ==> r.error == Rejected && entries == old(entries) && nextId == old(nextId)
    {
      if !accepts(secret, now) {
        return Failure(Rejected);
      }
      var handle := nextId;
      nextId := nextId + 1;
      entries := entries[handle := secret];
      return Success(handle);
    }

    method Revoke(handle: Handle) returns (ok: bool)
      requires Valid()
      modifies `entries
      ensures Valid()
      ensures ok == (handle in old(entries)) && entries == old(entries) - {handle}
    {
      ok := handle in entries;
      entries := entries - {handle};
    }
  }

  // -------------------------------------------------------- last header per key wins

  /** The mutation of each key named by the headers: the last one decides. */
  function LastWins(ps: seq<Parsed>): Mutations {
    if ps == [] then map[]
    else
      var last := ps[|ps| - 1];
      LastWins(ps[..|ps| - 1])[KeyOf(last) := MutationOf(last)]
  }

  /** What a record says about its cookie, apart from handle and generation. */
  datatype Content = Content(
    hostOnly: bool,
    secure: bool,
    httpOnly: bool,
    sameSite: SameSite,
    expires: Option<int>,
    valueSha: Option<Bytes>)

  function ContentOf(p: Parsed): Content {
    Content(p.hostOnly, p.secure, p.httpOnly, p.sameSite, p.expires, Some(p.valueSha))
  }

  function ContentOfRecord(r: Record): Content {
    Content(r.hostOnly, r.secure, r.httpOnly, r.sameSite, r.expires, r.valueSha)
  }

  type View = map<Key, Content>

  function ViewOf(records: Records): View {
    map k | k in records :: ContentOfRecord(records[k])
  }

  /** The simple reading of a response: one header after another. */
  function ApplyHeaders(view: View, ps: seq<Parsed>): View {
    if ps == [] then view
    else
      var last, before := ps[|ps| - 1], ApplyHeaders(view, ps[..|ps| - 1]);
      if last.delete then before - {KeyOf(last)} else before[KeyOf(last) := ContentOf(last)]
  }

  predicate Kept(view: View, ms: Mutations, k: Key) {
    if k in ms then ms[k].Store? else k in view
  }

  function ApplyMutations(view: View, ms: Mutations): View {
    map k | k in view.Keys + ms.Keys && Kept(view, ms, k) :: if k in ms then ContentOf(ms[k].parsed) else view[k]
  }

  /** Committing the batch has the effect of applying the headers one by one. */
  lemma {:induction false} BatchRefinesFold(view: View, ps: seq<Parsed>)
    ensures ApplyMutations(view, LastWins(ps)) == ApplyHeaders(view, ps)
  {
    if ps == [] {
      assert ApplyMutations(view, map[]) == view;
    } else {
      BatchRefinesFold(view, ps[..|ps| - 1]);
      MutationStep(view, LastWins(ps[..|ps| - 1]), ps[|ps| - 1]);
    }
  }

  lemma MutationStep(view: View, ms: Mutations, p: Parsed)
    ensures var before := ApplyMutations(view, ms);
      ApplyMutations(view, ms[KeyOf(p) := MutationOf(p)])
      == if p.delete then before - {KeyOf(p)} else before[KeyOf(p) := ContentOf(p)]
  {
    hide KeyOf, ContentOf;
    var before, k := ApplyMutations(view, ms), KeyOf(p);
    var after := ApplyMutations(view, ms[k := MutationOf(p)]);
    if p.delete {
      assert after.Keys == (before - {k}).Keys;
      assert after == before - {k};
    } else {
      assert after.Keys == before[k := ContentOf(p)].Keys;
      assert after == before[k := ContentOf(p)];
    }
  }

  /** Every stored mutation is filed under its own key and scoped to the origin. */
  ghost predicate WellFiled(ms: Mutations, origin: Origin, foreign: Foreign) {
    forall k :: k in ms && ms[k].Store? ==> KeyOf(ms[k].parsed) == k && ScopedTo(ms[k].parsed, origin, foreign)
  }

  lemma WellFiledEmpty(origin: Origin, foreign: Foreign)
    ensures WellFiled(map[], origin, foreign)
  {
  }

  lemma WellFiledUpdate(ms: Mutations, origin: Origin, foreign: Foreign, p: Parsed)
    requires WellFiled(ms, origin, foreign) && ScopedTo(p, origin, foreign)
    ensures WellFiled(ms[KeyOf(p) := MutationOf(p)], origin, foreign)
  {
    hide ScopedTo;
  }

  // ------------------------------------------------------------- parsing the batch

  function ParseAll(headers: seq<Bytes>, origin: Origin, target: Bytes, now: int,
                    foreign: Foreign): CookieResult<seq<Parsed>> {
    if headers == [] then Success([])
    else
      var first :- ParseSetCookie(headers[0], origin, target, now, foreign);
      var rest :- ParseAll(headers[1..], origin, target, now, foreign);
      Success([first] + rest)
  }

  datatype Batch = Batch(mutations: Mutations, superseded: nat)

  method ParseBatch(headers: seq<Bytes>, origin: Origin, target: Bytes, now: int, foreign: Foreign)
    returns (r: CookieResult<Batch>)
    requires ValidRequestTarget(target) && Settled(origin.host)
    ensures match ParseAll(headers, origin, target, now, foreign)
      case Failure(error) => r == Failure(error)
      case Success(ps) =>
        && r.Success? && r.value.mutations == LastWins(ps)
        && r.value.superseded + |r.value.mutations| == |headers|
        && WellFiled(r.value.mutations, origin, foreign)
  {
    hide ParseSetCookie, ScopedTo, ValidRequestTarget, Settled, WellFiled, KeyOf, MutationOf;
    var mutations: Mutations, superseded := map[], 0;
    WellFiledEmpty(origin, foreign);
    ghost var done: seq<Parsed> := [];
    ghost var whole := ParseAll(headers, origin, target, now, foreign);
    PrependNothing(whole);
    assert headers[0..] == headers;
    for i := 0 to |headers|
      invariant whole == Prepend(done, ParseAll(headers[i..], origin, target, now, foreign))
      invariant mutations == LastWins(done) && superseded + |mutations| == i
      invariant WellFiled(mutations, origin, foreign)
    {
      assert headers[i..][1..] == headers[i + 1..];
      var parsed := ParseHeader(headers[i], origin, target, now, foreign);
      if parsed.Failure? {
        return Failure(parsed.error);
      }
      AcceptedIsScoped(headers[i], origin, target, now, foreign);
      PrependOne(done, parsed.value, ParseAll(headers[i + 1..], origin, target, now, foreign));
      assert (done + [parsed.value])[..|done|] == done;
      done := done + [parsed.value];
      var key := KeyOf(parsed.value);
      if key in mutations {
        superseded := superseded + 1;
      }
      MapUpdateSize(mutations, key, MutationOf(parsed.value));
      WellFiledUpdate(mutations, origin, foreign, parsed.value);
      mutations := mutations[key := MutationOf(parsed.value)];
    }
    assert done + [] == done;
    r := Success(Batch(mutations, superseded));
  }

  lemma MapUpdateSize<K, V>(m: map<K, V>, k: K, v: V)
    ensures |m[k := v]| == |m| + if k in m then 0 else 1
  {
    assert m[k := v].Keys == m.Keys + {k};
  }

  // ----------------------------------------------------------------------- scope

  function AllowedHosts(binding: Binding, origin: Origin, p: Parsed): set<Bytes> {
    if p.hostOnly then {origin.host} else set h | h in binding.hosts && DomainMatches(h, p.domain)
  }

  function AllowedSchemes(binding: Binding, p: Parsed): set<Bytes> {
    if p.secure then set s | s in binding.schemes && s == HTTPS else binding.schemes
  }

  predicate Admits(binding: Binding, origin: Origin) {
    origin.host in binding.hosts && origin.scheme in binding.schemes
  }

  /** The scope of every cookie is a part of the binding that holds the origin, so it is never empty. */
  lemma ScopeHoldsOrigin(binding: Binding, origin: Origin, p: Parsed, foreign: Foreign)
    requires Admits(binding, origin) && ScopedTo(p, origin, foreign)
    ensures origin.host in AllowedHosts(binding, origin, p) && AllowedHosts(binding, origin, p) <= binding.hosts
    ensures forall h :: h in AllowedHosts(binding, origin, p) ==> DomainMatches(h, p.domain)
    ensures origin.scheme in AllowedSchemes(binding, p) && AllowedSchemes(binding, p) <= binding.schemes
    ensures p.secure ==> AllowedSchemes(binding, p) == {HTTPS}
  {
    hide PublicSuffixLike, ValidName, ValidValue, SecurePrefix, HostPrefix;
  }

  function SecretFor(binding: Binding, origin: Origin, p: Parsed): Secret {
    Secret(true, p.value, binding.(hosts := AllowedHosts(binding, origin, p), schemes := AllowedSchemes(binding, p)),
           KeyOf(p), p.expires, p.secure, p.httpOnly, p.sameSite)
  }

  function RecordFor(p: Parsed, handle: Handle, generation: nat): Record {
    Record(KeyOf(p), handle, p.hostOnly, p.secure, p.httpOnly, p.sameSite, p.expires, Some(p.valueSha), generation)
  }

  /** The stored secret can be sent only where the record's cookie belongs. */
  ghost predicate WellScoped(secret: Secret, r: Record) {
    && secret.key == r.key && secret.binding.hosts != {} && secret.binding.schemes != {}
    && (forall h :: h in secret.binding.hosts ==> DomainMatches(h, r.key.domain))
    && (r.hostOnly ==> secret.binding.hosts == {r.key.domain})
    && (r.secure ==> secret.binding.schemes == {HTTPS})
    && (SecurePrefix(r.key.name) ==> r.secure)
    && (HostPrefix(r.key.name) ==> r.secure && r.hostOnly && r.key.path == [SLASH])
  }

  /** The key under which a cookie in the vault is filed when a jar is seeded with it. */
  function SeedKey(secret: Secret): CookieResult<Key> {
    var domain :- NormalizeHost(secret.key.domain);
    var path :- NormalizePath(secret.key.path);
    Success(Key(secret.key.name, domain, path))
  }

  /** The secret belongs to the record: seeding would file it there, and a response's cookie is well scoped. */
  ghost predicate Fits(secret: Secret, r: Record) {
    && (SeedKey(secret).Success? ==> SeedKey(secret).value == r.key)
    && (r.valueSha.Some? ==> WellScoped(secret, r))
  }

  lemma NewSecretWellScoped(binding: Binding, origin: Origin, p: Parsed, foreign: Foreign, handle: Handle,
                            generation: nat)
    requires Admits(binding, origin) && ScopedTo(p, origin, foreign)
    ensures WellScoped(SecretFor(binding, origin, p), RecordFor(p, handle, generation))
    ensures Fits(SecretFor(binding, origin, p), RecordFor(p, handle, generation))
  {
    hide PublicSuffixLike, ValidName, ValidValue, SecurePrefix, HostPrefix, DomainMatches;
    hide NormalizeHost;
    ScopeHoldsOrigin(binding, origin, p, foreign);
  }

  // ------------------------------------------------------------------ jar and vault

  /** Every record owns a handle of its own, issued before next. */
  ghost predicate Distinct(records: Records, next: nat) {
    && (forall k :: k in records ==> records[k].handle < next)
    && (forall k, k' :: k in records && k' in records && k != k' ==> records[k].handle != records[k'].handle)
  }

  ghost predicate Uniform(records: Records, generation: nat) {
    forall k :: k in records ==> records[k].key == k && records[k].generation == generation
  }

  ghost predicate AllLive(records: Records, live: Secrets) {
    forall k :: k in records ==> records[k].handle in live
  }

  ghost predicate AllFit(records: Records, live: Secrets) {
    forall k :: k in records && records[k].handle in live ==> Fits(live[records[k].handle], records[k])
  }

  /** The handles that the records of these keys own. */
  function HandlesOf(records: Records, keys: set<Key>): set<Handle> {
    set k | k in keys && k in records :: records[k].handle
  }

  // ----------------------------------------------------------------------- staging

  /** live is base plus one new handle, issued from next on, for each staged record. */
  ghost predicate Staged(base: Secrets, next: nat, live: Secrets, staged: Records) {
    && (forall h :: h in base ==> h < next)
    && (forall k :: k in staged ==> next <= staged[k].handle && staged[k].handle in live)
    && (forall k, k' :: k in staged && k' in staged && k != k' ==> staged[k].handle != staged[k'].handle)
    && (forall h :: h in base ==> h in live && live[h] == base[h])
    && (forall h :: h in live ==> h in base || h in HandlesOf(staged, staged.Keys))
  }

  lemma StagedAdd(base: Secrets, next: nat, live: Secrets, staged: Records, r: Record, secret: Secret)
    requires Staged(base, next, live, staged) && r.key !in staged && next <= r.handle && r.handle !in live
    ensures Staged(base, next, live[r.handle := secret], staged[r.key := r])
  {
    hide HandlesOf;
    HandlesUpdated(staged, r);
  }

  lemma HandlesUpdated(staged: Records, r: Record)
    requires r.key !in staged
    ensures var staged' := staged[r.key := r];
      HandlesOf(staged', staged'.Keys) == HandlesOf(staged, staged.Keys) + {r.handle}
  {
    var staged' := staged[r.key := r];
    assert r.key in staged';
    forall k | k in staged
      ensures staged[k].handle in HandlesOf(staged', staged'.Keys)
    {
      assert k in staged';
    }
  }

  lemma StagedRemove(base: Secrets, next: nat, live: Secrets, staged: Records, k: Key)
    requires Staged(base, next, live, staged) && k in staged
    ensures staged[k].handle in live
    ensures Staged(base, next, live - {staged[k].handle}, staged - {k})
  {
    var live', staged' := live - {staged[k].handle}, staged - {k};
    forall h | h in live'
      ensures h in base || h in HandlesOf(staged', staged'.Keys)
    {
      if h !in base {
        var j :| j in staged && staged[j].handle == h;
        assert j in staged';
      }
    }
  }

  lemma NothingStaged(base: Secrets, next: nat, live: Secrets)
    requires forall h :: h in base ==> h < next
    ensures Staged(base, next, live, map[]) <==> live == base
  {
    if Staged(base, next, live, map[]) {
      assert live.Keys == base.Keys;
    }
  }

  /** Undoing staged inserts restores the vault, and no revocation of a staged handle can fail. */
  method Rollback(vault: Vault, records: Records, ghost base: Secrets, ghost next: nat) returns (ok: bool)
    requires vault.Valid() && forall h :: h in base ==> h < next
    modifies vault`entries
    ensures vault.Valid()
    ensures old(Staged(base, next, vault.entries, records)) ==> ok && vault.entries == base
  {
    hide Staged;
    ghost var proper := Staged(base, next, vault.entries, records);
    var todo := records;
    while todo != map[]
      invariant vault.Valid() && (proper ==> Staged(base, next, vault.entries, todo))
      decreases |todo|
    {
      var key :| key in todo.Keys;
      if proper {
        StagedRemove(base, next, vault.entries, todo, key);
      }
      MapRemoveSize(todo, key);
      var revoked := vault.Revoke(todo[key].handle);
      if !revoked {
        return false;
      }
      todo := todo - {key};
    }
    NothingStaged(base, next, vault.entries);
    return true;
  }

  lemma MapRemoveSize<K, V>(m: map<K, V>, k: K)
    requires k in m
    ensures |m - {k}| + 1 == |m|
  {
    assert m.Keys == (m - {k}).Keys + {k};
  }

  function StoreKeys(ms: Mutations): set<Key> {
    set k | k in ms && ms[k].Store?
  }

  /** The staged records are the new records of exactly these keys, and the vault holds their secrets. */
  ghost predicate StagedFor(ms: Mutations, keys: set<Key>, staged: Records, live: Secrets, binding: Binding,
                            origin: Origin, generation: nat) {
    && staged.Keys == keys
    && forall k :: k in staged ==>
         && k in ms && ms[k].Store? && staged[k].handle in live
         && staged[k] == RecordFor(ms[k].parsed, staged[k].handle, generation)
         && live[staged[k].handle] == SecretFor(binding, origin, ms[k].parsed)
  }

  /** The vault after the stored cookies among keys were staged. */
  ghost predicate StagedKeys(base: Secrets, next: nat, live: Secrets, ms: Mutations, keys: set<Key>, staged: Records,
                             binding: Binding, origin: Origin, generation: nat) {
    && Staged(base, next, live, staged)
    && StagedFor(ms, StoreKeys(ms) * keys, staged, live, binding, origin, generation)
  }

  lemma StagedKeysAdd(base: Secrets, next: nat, live: Secrets, ms: Mutations, keys: set<Key>, staged: Records,
                      binding: Binding, origin: Origin, generation: nat, key: Key, handle: Handle)
    requires StagedKeys(base, next, live, ms, keys, staged, binding, origin, generation)
    requires key !in keys && key in ms && ms[key].Store? && KeyOf(ms[key].parsed) == key
    requires next <= handle && handle !in live
    ensures var p := ms[key].parsed;
      StagedKeys(base, next, live[handle := SecretFor(binding, origin, p)], ms, keys + {key},
                 staged[key := RecordFor(p, handle, generation)], binding, origin, generation)
  {
    hide SecretFor, KeyOf, Staged;
    var p := ms[key].parsed;
    StagedAdd(base, next, live, staged, RecordFor(p, handle, generation), SecretFor(binding, origin, p));
    assert StoreKeys(ms) * (keys + {key}) == StoreKeys(ms) * keys + {key};
  }

  lemma StagedKeysSkip(base: Secrets, next: nat, live: Secrets, ms: Mutations, keys: set<Key>, staged: Records,
                       binding: Binding, origin: Origin, generation: nat, key: Key)
    requires StagedKeys(base, next, live, ms, keys, staged, binding, origin, generation)
    requires key in ms && ms[key].Delete?
    ensures StagedKeys(base, next, live, ms, keys + {key}, staged, binding, origin, generation)
  {
    assert StoreKeys(ms) * (keys + {key}) == StoreKeys(ms) * keys;
  }

  lemma StagedKeysNone(base: Secrets, next: nat, ms: Mutations, binding: Binding, origin: Origin, generation: nat)
    requires forall h :: h in base ==> h < next
    ensures StagedKeys(base, next, base, ms, {}, map[], binding, origin, generation)
  {
    NothingStaged(base, next, base);
  }

  lemma StagedKeysAll(base: Secrets, next: nat, live: Secrets, ms: Mutations, staged: Records,
                      binding: Binding, origin: Origin, generation: nat)
    requires StagedKeys(base, next, live, ms, ms.Keys, staged, binding, origin, generation)
    ensures Staged(base, next, live, staged)
    ensures StagedFor(ms, StoreKeys(ms), staged, live, binding, origin, generation)
  {
    assert StoreKeys(ms) * ms.Keys == StoreKeys(ms);
  }

  ghost predicate Accepted(accepts: (Secret, int) -> bool, ms: Mutations, binding: Binding, origin: Origin, now: int,
                           keys: set<Key>) {
    forall k :: k in keys && k in ms && ms[k].Store? ==> accepts(SecretFor(binding, origin, ms[k].parsed), now)
  }

  /** Adds the secret of one cookie, or restores the vault to base when it is refused. */
  method StageOne(vault: Vault, staged: Records, parsed: Parsed, binding: Binding, origin: Origin, now: int,
                  generation: nat,
                  ghost foreign: Foreign, ghost base: Secrets, ghost next: nat)
    returns (r: JarResult<Record>)
    requires vault.Valid() && Admits(binding, origin) && ScopedTo(parsed, origin, foreign)
    requires Staged(base, next, vault.entries, staged)
    modifies vault
    ensures vault.Valid() && old(vault.nextId) <= vault.nextId
    ensures r.Success? <==> vault.accepts(SecretFor(binding, origin, parsed), now)
    ensures r.Failure? ==> r.error == VaultFailure(Rejected) && vault.entries == base
    ensures r.Success? ==>
              && old(vault.nextId) <= r.value.handle && r.value == RecordFor(parsed, r.value.handle, generation)
              && vault.entries == old(vault.entries)[r.value.handle := SecretFor(binding, origin, parsed)]
  {
    hide ScopedTo, SecretFor, AllowedHosts, AllowedSchemes, HandlesOf;
    var hosts := AllowedHosts(binding, origin, parsed);
    if hosts == {} {
      ScopeHoldsOrigin(binding, origin, parsed, foreign);
      return Failure(CookieScopeEmpty);
    }
    var schemes := AllowedSchemes(binding, parsed);
    if schemes == {} {
      var undone := Rollback(vault, staged, base, next);
      ScopeHoldsOrigin(binding, origin, parsed, foreign);
      return Failure(if undone then CookieScopeEmpty else RollbackFailed);
    }
    var inserted := vault.Insert(SecretFor(binding, origin, parsed), now);
    if inserted.Failure? {
      var undone := Rollback(vault, staged, base, next);
      return Failure(if undone then VaultFailure(inserted.error) else RollbackFailed);
    }
    r := Success(RecordFor(parsed, inserted.value, generation));
  }

  /** One new secret for each stored cookie, or, when the vault refuses one, no change at all. */
  method Stage(vault: Vault, mutations: Mutations, binding: Binding, origin: Origin, now: int, generation: nat,
               ghost foreign: Foreign)
    returns (r: JarResult<Records>)
    requires vault.Valid() && Admits(binding, origin) && WellFiled(mutations, origin, foreign)
    modifies vault
    ensures vault.Valid() && old(vault.nextId) <= vault.nextId
    ensures r.Success? <==> Accepted(vault.accepts, mutations, binding, origin, now, mutations.Keys)
    ensures r.Failure? ==> r.error == VaultFailure(Rejected) && vault.entries == old(vault.entries)
    ensures r.Success? ==>
              && Staged(old(vault.entries), old(vault.nextId), vault.entries, r.value)
              && StagedFor(mutations, StoreKeys(mutations), r.value, vault.entries, binding, origin, generation)
  {
    hide StagedKeys, Staged, StagedFor, WellFiled, SecretFor, RecordFor, ScopedTo, Admits, StoreKeys;
    ghost var base, next := vault.entries, vault.nextId;
    var staged: Records := map[];
    var todo := mutations.Keys;
    ghost var done: set<Key> := {};
    StagedKeysNone(base, next, mutations, binding, origin, generation);
    while todo != {}
      invariant done + todo == mutations.Keys && done !! todo && vault.Valid() && next <= vault.nextId
      invariant StagedKeys(base, next, vault.entries, mutations, done, staged, binding, origin, generation)
      invariant Accepted(vault.accepts, mutations, binding, origin, now, done)
      decreases |todo|
    {
      var key :| key in todo;
      ghost var live := vault.entries;
      match mutations[key] {
        case Delete =>
          StagedKeysSkip(base, next, live, mutations, done, staged, binding, origin, generation, key);
        case Store(parsed) =>
          StoredIsScoped(mutations, key, origin, foreign);
          StagedPart(base, next, live, mutations, done, staged, binding, origin, generation);
          var record := StageOne(vault, staged, parsed, binding, origin, now, generation, foreign, base, next);
          if record.Failure? {
            return Failure(record.error);
          }
          StagedKeysAdd(base, next, live, mutations, done, staged, binding, origin, generation, key,
                        record.value.handle);
          staged := staged[key := record.value];
      }
      done, todo := done + {key}, todo - {key};
    }
    StagedKeysAll(base, next, vault.entries, mutations, staged, binding, origin, generation);
    r := Success(staged);
  }

  lemma StagedPart(base: Secrets, next: nat, live: Secrets, ms: Mutations, keys: set<Key>, staged: Records,
                   binding: Binding, origin: Origin, generation: nat)
    requires StagedKeys(base, next, live, ms, keys, staged, binding, origin, generation)
    ensures Staged(base, next, live, staged)
  {
  }

  lemma StoredIsScoped(ms: Mutations, k: Key, origin: Origin, foreign: Foreign)
    requires WellFiled(ms, origin, foreign) && k in ms && ms[k].Store?
    ensures KeyOf(ms[k].parsed) == k && ScopedTo(ms[k].parsed, origin, foreign)
  {
  }
}
