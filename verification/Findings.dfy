/** Deduplication of findings into clusters that must not depend on arrival order. */
module Findings {
  import opened Wrappers
  import opened Bytes

  /** Info, Low, Medium, High. */
  type Severity = n: nat | n <= 3

  /** Low, Medium, High. */
  type Confidence = n: nat | n <= 2

  datatype Finding = Finding(
    findingId: Bytes,
    ruleId: Bytes,
    origin: Bytes,
    endpoint: Bytes,
    policySnapshot: Bytes,
    evidence: Bytes,
    severity: Severity,
    confidence: Confidence,
    validated: bool)

  datatype Cluster = Cluster(
    clusterId: Bytes,
    dedupKey: Bytes,
    canonical: Bytes,
    members: set<Bytes>,
    severity: Severity,
    confidence: Confidence,
    validated: bool,
    evidence: set<Bytes>)

  /** The digest of rule, origin, endpoint and policy snapshot. */
  type Digest = (Bytes, Bytes, Bytes, Bytes) -> Sha256

  function KeyOf(d: Digest, f: Finding): Sha256 {
    d(f.ruleId, f.origin, f.endpoint, f.policySnapshot)
  }

  function ClusterIdOf(d: Digest, f: Finding): Bytes {
    Ascii("cluster-") + KeyOf(d, f)[..24]
  }

  datatype Index = Index(clusters: map<Bytes, Cluster>, clusterOf: map<Bytes, Bytes>)

  function MaxOf(a: nat, b: nat): nat {
    if a < b then b else a
  }

  function LeastId(a: Bytes, b: Bytes): Bytes {
    if a != b && Leq(a, b) then a else b
  }

  /** A cluster as the first finding creates it. */
  function Opened(d: Digest, f: Finding): Cluster {
    Cluster(ClusterIdOf(d, f), KeyOf(d, f), f.findingId, {}, f.severity, f.confidence, f.validated, {})
  }

  function Joined(c: Cluster, f: Finding): Cluster {
    c.(members := c.members + {f.findingId},
       evidence := c.evidence + {f.evidence},
       severity := MaxOf(c.severity, f.severity),
       confidence := MaxOf(c.confidence, f.confidence),
       validated := c.validated || f.validated,
       canonical := LeastId(f.findingId, c.canonical))
  }

  function Insert(d: Digest, s: Index, f: Finding): Index {
    if f.findingId in s.clusterOf then s
    else
      var id := ClusterIdOf(d, f);
      var cluster := if id in s.clusters then s.clusters[id] else Opened(d, f);
      Index(s.clusters[id := Joined(cluster, f)], s.clusterOf[f.findingId := id])
  }

  function InsertAll(d: Digest, s: Index, fs: seq<Finding>): Index
    decreases |fs|
  {
    if fs == [] then s else InsertAll(d, Insert(d, s, fs[0]), fs[1..])
  }

  const EMPTY := Index(map[], map[])

  // ------------------------------------------------------------- what a state means

  /** The findings of fs that fall into the cluster id. */
  ghost predicate In(d: Digest, fs: set<Finding>, id: Bytes, f: Finding) {
    f in fs && ClusterIdOf(d, f) == id
  }

  /** c summarises the findings of fs in its cluster: minimum, maxima, disjunction and unions. */
  ghost predicate Summarises(d: Digest, fs: set<Finding>, id: Bytes, c: Cluster) {
    && c.clusterId == id
    && (exists f :: In(d, fs, id, f) && KeyOf(d, f) == c.dedupKey)
    && (forall m :: m in c.members <==> exists f :: In(d, fs, id, f) && f.findingId == m)
    && (forall e :: e in c.evidence <==> exists f :: In(d, fs, id, f) && f.evidence == e)
    && c.canonical in c.members
    && (forall f :: In(d, fs, id, f) ==> Leq(c.canonical, f.findingId))
    && (exists f :: In(d, fs, id, f) && f.severity == c.severity)
    && (forall f :: In(d, fs, id, f) ==> f.severity <= c.severity)
    && (exists f :: In(d, fs, id, f) && f.confidence == c.confidence)
    && (forall f :: In(d, fs, id, f) ==> f.confidence <= c.confidence)
    && (c.validated <==> exists f :: In(d, fs, id, f) && f.validated)
  }

  /** Each finding lies in exactly its cluster, each cluster summarises its findings, and both maps agree. */
  ghost predicate Describes(d: Digest, fs: set<Finding>, s: Index) {
    && (forall m :: m in s.clusterOf <==> exists f :: f in fs && f.findingId == m)
    && (forall f :: f in fs ==> f.findingId in s.clusterOf && s.clusterOf[f.findingId] == ClusterIdOf(d, f))
    && (forall id :: id in s.clusters <==> exists f :: In(d, fs, id, f))
    && (forall id :: id in s.clusters ==> Summarises(d, fs, id, s.clusters[id]))
  }

  /** No id names two different findings. */
  ghost predicate UniqueIds(fs: set<Finding>) {
    forall f, g :: f in fs && g in fs && f.findingId == g.findingId ==> f == g
  }

  /** Findings with different keys fall into different clusters. */
  ghost predicate NoPrefixCollision(d: Digest, fs: set<Finding>) {
    forall f, g :: f in fs && g in fs && ClusterIdOf(d, f) == ClusterIdOf(d, g) ==> KeyOf(d, f) == KeyOf(d, g)
  }

  // --------------------------------------------------------------- insertion is sound

  lemma LeastIdIsLeast(a: Bytes, b: Bytes)
    ensures LeastId(a, b) == a || LeastId(a, b) == b
    ensures Leq(LeastId(a, b), a) && Leq(LeastId(a, b), b)
  {
    LeqReflexive(a);
    LeqReflexive(b);
    LeqTotal(a, b);
  }

  lemma OpenedSummarises(d: Digest, fs: set<Finding>, f: Finding)
    requires forall g :: !In(d, fs, ClusterIdOf(d, f), g)
    ensures Summarises(d, fs + {f}, ClusterIdOf(d, f), Joined(Opened(d, f), f))
  {
    hide ClusterIdOf, KeyOf, LeastId, Leq;
    var id := ClusterIdOf(d, f);
    LeastIdIsLeast(f.findingId, f.findingId);
    GrowIn(d, fs, f);
    assert forall g :: In(d, fs + {f}, id, g) <==> g == f;
  }

  lemma JoinedSummarises(d: Digest, fs: set<Finding>, f: Finding, c: Cluster)
    requires Summarises(d, fs, ClusterIdOf(d, f), c)
    ensures Summarises(d, fs + {f}, ClusterIdOf(d, f), Joined(c, f))
  {
    hide ClusterIdOf, KeyOf, LeastId, Leq;
    var id := ClusterIdOf(d, f);
    LeastIdIsLeast(f.findingId, c.canonical);
    GrowIn(d, fs, f);
    var c' := Joined(c, f);
    forall g | In(d, fs + {f}, id, g)
      ensures Leq(c'.canonical, g.findingId)
    {
      if g != f {
        LeqTransitive(c'.canonical, c.canonical, g.findingId);
      }
    }
    JoinedWitnesses(d, fs, f, c);
  }

  lemma GrowIn(d: Digest, fs: set<Finding>, f: Finding)
    ensures forall g :: In(d, fs + {f}, ClusterIdOf(d, f), g) <==> In(d, fs, ClusterIdOf(d, f), g) || g == f
  {
    hide ClusterIdOf;
  }

  lemma JoinedWitnesses(d: Digest, fs: set<Finding>, f: Finding, c: Cluster)
    requires Summarises(d, fs, ClusterIdOf(d, f), c)
    ensures var (all, id, c') := (fs + {f}, ClusterIdOf(d, f), Joined(c, f));
      && (exists g :: In(d, all, id, g) && KeyOf(d, g) == c'.dedupKey)
      && (exists g :: In(d, all, id, g) && g.severity == c'.severity)
      && (exists g :: In(d, all, id, g) && g.confidence == c'.confidence)
      && (forall m :: m in c'.members <==> exists g :: In(d, all, id, g) && g.findingId == m)
      && (forall e :: e in c'.evidence <==> exists g :: In(d, all, id, g) && g.evidence == e)
      && (c'.validated <==> exists g :: In(d, all, id, g) && g.validated)
  {
    hide ClusterIdOf, KeyOf, LeastId, Leq;
    var id := ClusterIdOf(d, f);
    GrowIn(d, fs, f);
    var k :| In(d, fs, id, k) && KeyOf(d, k) == c.dedupKey;
    var s :| In(d, fs, id, s) && s.severity == c.severity;
    var t :| In(d, fs, id, t) && t.confidence == c.confidence;
    assert In(d, fs + {f}, id, f) && In(d, fs + {f}, id, k) && In(d, fs + {f}, id, s) && In(d, fs + {f}, id, t);
  }

  lemma OtherClustersKept(d: Digest, fs: set<Finding>, f: Finding, id: Bytes, c: Cluster)
    requires id != ClusterIdOf(d, f) && Summarises(d, fs, id, c)
    ensures Summarises(d, fs + {f}, id, c)
  {
    hide ClusterIdOf, KeyOf, Leq;
    assert forall g :: In(d, fs + {f}, id, g) <==> In(d, fs, id, g);
  }

  lemma InsertNewDescribes(d: Digest, fs: set<Finding>, s: Index, f: Finding)
    requires Describes(d, fs, s) && f.findingId !in s.clusterOf
    ensures Describes(d, fs + {f}, Insert(d, s, f))
  {
    hide ClusterIdOf, KeyOf, Leq, Summarises, Joined, Opened;
    var id := ClusterIdOf(d, f);
    var all := fs + {f};
    var t := Insert(d, s, f);
    if id in s.clusters {
      JoinedSummarises(d, fs, f, s.clusters[id]);
    } else {
      OpenedSummarises(d, fs, f);
    }
    forall k | k in t.clusters
      ensures Summarises(d, all, k, t.clusters[k])
    {
      if k != id {
        OtherClustersKept(d, fs, f, k, s.clusters[k]);
      }
    }
    NewKeys(d, fs, s, f);
  }

  lemma NewKeys(d: Digest, fs: set<Finding>, s: Index, f: Finding)
    requires Describes(d, fs, s) && f.findingId !in s.clusterOf
    ensures var t := Insert(d, s, f);
      && (forall m :: m in t.clusterOf <==> exists g :: g in fs + {f} && g.findingId == m)
      && (forall g :: g in fs + {f} ==> g.findingId in t.clusterOf && t.clusterOf[g.findingId] == ClusterIdOf(d, g))
      && (forall id :: id in t.clusters <==> exists g :: In(d, fs + {f}, id, g))
  {
    hide ClusterIdOf, KeyOf, Summarises, Joined, Opened;
    var t, all, id := Insert(d, s, f), fs + {f}, ClusterIdOf(d, f);
    assert f in all && In(d, all, id, f);
    forall m
      ensures m in t.clusterOf <==> exists g :: g in all && g.findingId == m
    {
      if m in s.clusterOf {
        var g :| g in fs && g.findingId == m;
        assert g in all;
      }
    }
    forall k
      ensures k in t.clusters <==> exists g :: In(d, all, k, g)
    {
      if k in s.clusters {
        var g :| In(d, fs, k, g);
        assert In(d, all, k, g);
      }
      if g :| In(d, all, k, g) {
        assert g == f || In(d, fs, k, g);
      }
    }
  }

  // --------------------------------------------------- the first finding of each id

  ghost predicate Named(fs: set<Finding>, m: Bytes) {
    exists f :: f in fs && f.findingId == m
  }

  /** What is kept of fs when the findings of seen have arrived: of each id, the first. */
  ghost function KeptFrom(seen: set<Finding>, fs: seq<Finding>): set<Finding>
    decreases |fs|
  {
    if fs == [] then seen
    else KeptFrom(if Named(seen, fs[0].findingId) then seen else seen + {fs[0]}, fs[1..])
  }

  ghost function Kept(fs: seq<Finding>): set<Finding> {
    KeptFrom({}, fs)
  }

  /** One finding for each id that fs names. */
  ghost predicate Chosen(fs: set<Finding>, kept: set<Finding>) {
    && kept <= fs && UniqueIds(kept)
    && forall f :: f in fs ==> Named(kept, f.findingId)
  }

  lemma AsSetCons(fs: seq<Finding>)
    requires fs != []
    ensures AsSet(fs) == {fs[0]} + AsSet(fs[1..])
  {
    assert fs == [fs[0]] + fs[1..];
  }

  lemma {:induction false} KeptFromBounds(seen: set<Finding>, fs: seq<Finding>)
    requires UniqueIds(seen)
    ensures seen <= KeptFrom(seen, fs) && Chosen(seen + AsSet(fs), KeptFrom(seen, fs))
    ensures forall f :: f in KeptFrom(seen, fs) && f !in seen ==> !Named(seen, f.findingId)
    decreases |fs|
  {
    if fs == [] {
      assert seen + AsSet(fs) == seen;
    } else {
      var next := if Named(seen, fs[0].findingId) then seen else seen + {fs[0]};
      AsSetCons(fs);
      KeptFromBounds(next, fs[1..]);
      NamedGrows(seen, fs[0], KeptFrom(seen, fs));
    }
  }

  /** Passing f by is harmless when its id is named already. */
  lemma NamedGrows(seen: set<Finding>, f: Finding, kept: set<Finding>)
    requires (if Named(seen, f.findingId) then seen else seen + {f}) <= kept
    ensures Named(kept, f.findingId)
  {
    if Named(seen, f.findingId) {
      var g :| g in seen && g.findingId == f.findingId;
      assert g in kept;
    } else {
      assert f in kept;
    }
  }

  lemma KeptIsChosen(fs: seq<Finding>)
    ensures Chosen(AsSet(fs), Kept(fs))
  {
    hide KeptFrom, Chosen;
    assert {} + AsSet(fs) == AsSet(fs);
    KeptFromBounds({}, fs);
  }

  lemma {:induction false} KeptFromAppend(seen: set<Finding>, a: seq<Finding>, b: seq<Finding>)
    ensures KeptFrom(seen, a + b) == KeptFrom(KeptFrom(seen, a), b)
    decreases |a|
  {
    hide Named;
    if a == [] {
      assert a + b == b;
    } else {
      assert (a + b)[1..] == a[1..] + b;
      KeptFromAppend(if Named(seen, a[0].findingId) then seen else seen + {a[0]}, a[1..], b);
    }
  }

  lemma {:induction false} InsertAllDescribes(d: Digest, seen: set<Finding>, s: Index, fs: seq<Finding>)
    requires Describes(d, seen, s)
    ensures Describes(d, KeptFrom(seen, fs), InsertAll(d, s, fs))
    decreases |fs|
  {
    hide Describes, Insert;
    if fs != [] {
      var f := fs[0];
      NamedIsIndexed(d, seen, s, f.findingId);
      if Named(seen, f.findingId) {
        InsertKnown(d, s, f);
      } else {
        InsertNewDescribes(d, seen, s, f);
      }
      InsertAllDescribes(d, if Named(seen, f.findingId) then seen else seen + {f}, Insert(d, s, f), fs[1..]);
    }
  }

  lemma NamedIsIndexed(d: Digest, seen: set<Finding>, s: Index, m: Bytes)
    requires Describes(d, seen, s)
    ensures m in s.clusterOf <==> Named(seen, m)
  {
  }

  lemma InsertKnown(d: Digest, s: Index, f: Finding)
    requires f.findingId in s.clusterOf
    ensures Insert(d, s, f) == s
  {
  }

  lemma EmptyDescribes(d: Digest)
    ensures Describes(d, {}, EMPTY)
  {
  }

  /** What every list of findings is clustered into: the first finding of each id. */
  lemma ClustersDescribe(d: Digest, fs: seq<Finding>)
    ensures Describes(d, Kept(fs), InsertAll(d, EMPTY, fs))
    ensures Chosen(AsSet(fs), Kept(fs))
    ensures UniqueIds(AsSet(fs)) ==> Kept(fs) == AsSet(fs)
  {
    hide Describes, InsertAll;
    EmptyDescribes(d);
    InsertAllDescribes(d, {}, EMPTY, fs);
    KeptIsChosen(fs);
    if UniqueIds(AsSet(fs)) {
      OnlyChoice(AsSet(fs), Kept(fs));
    }
  }

  lemma OnlyChoice(fs: set<Finding>, kept: set<Finding>)
    requires Chosen(fs, kept) && UniqueIds(fs)
    ensures kept == fs
  {
    forall f | f in fs
      ensures f in kept
    {
      var g :| g in kept && g.findingId == f.findingId;
    }
  }

  // -------------------------------------------------------------- order independence

  lemma SummaryUnique(d: Digest, fs: set<Finding>, id: Bytes, a: Cluster, b: Cluster)
    requires Summarises(d, fs, id, a) && Summarises(d, fs, id, b)
    ensures a == b.(dedupKey := a.dedupKey)
    ensures NoPrefixCollision(d, fs) ==> a == b
  {
    hide ClusterIdOf, KeyOf, Leq;
    var f :| In(d, fs, id, f) && f.findingId == a.canonical;
    var g :| In(d, fs, id, g) && g.findingId == b.canonical;
    LeqAntisymmetric(a.canonical, b.canonical);
    assert a.members == b.members && a.evidence == b.evidence;
    var s :| In(d, fs, id, s) && s.severity == a.severity;
    var t :| In(d, fs, id, t) && t.severity == b.severity;
    var u :| In(d, fs, id, u) && u.confidence == a.confidence;
    var v :| In(d, fs, id, v) && v.confidence == b.confidence;
    var k :| In(d, fs, id, k) && KeyOf(d, k) == a.dedupKey;
    var l :| In(d, fs, id, l) && KeyOf(d, l) == b.dedupKey;
  }

  lemma DescriptionUnique(d: Digest, fs: set<Finding>, s: Index, t: Index)
    requires Describes(d, fs, s) && Describes(d, fs, t) && NoPrefixCollision(d, fs)
    ensures s == t
  {
    hide ClusterIdOf, KeyOf, Leq, Summarises, NoPrefixCollision;
    assert s.clusterOf.Keys == t.clusterOf.Keys;
    forall m | m in s.clusterOf
      ensures s.clusterOf[m] == t.clusterOf[m]
    {
      var f :| f in fs && f.findingId == m;
    }
    assert s.clusterOf == t.clusterOf;
    assert s.clusters.Keys == t.clusters.Keys;
    forall id | id in s.clusters
      ensures s.clusters[id] == t.clusters[id]
    {
      SummaryUnique(d, fs, id, s.clusters[id], t.clusters[id]);
    }
  }

  lemma InsertKeepsKeys(d: Digest, s: Index, f: Finding)
    ensures forall id :: id in s.clusters ==>
              id in Insert(d, s, f).clusters && Insert(d, s, f).clusters[id].dedupKey == s.clusters[id].dedupKey
  {
    hide ClusterIdOf, KeyOf;
  }

  lemma {:induction false} InsertAllKeepsKeys(d: Digest, s: Index, fs: seq<Finding>, id: Bytes)
    requires id in s.clusters
    ensures id in InsertAll(d, s, fs).clusters && InsertAll(d, s, fs).clusters[id].dedupKey == s.clusters[id].dedupKey
    decreases |fs|
  {
    hide Insert;
    if fs != [] {
      InsertKeepsKeys(d, s, fs[0]);
      InsertAllKeepsKeys(d, Insert(d, s, fs[0]), fs[1..], id);
    }
  }

  /** The finding that arrives first fixes the key recorded for its cluster. */
  lemma FirstFixesKey(d: Digest, fs: seq<Finding>)
    requires fs != []
    ensures ClusterIdOf(d, fs[0]) in InsertAll(d, EMPTY, fs).clusters
    ensures InsertAll(d, EMPTY, fs).clusters[ClusterIdOf(d, fs[0])].dedupKey == KeyOf(d, fs[0])
  {
    hide ClusterIdOf, KeyOf;
    InsertAllKeepsKeys(d, Insert(d, EMPTY, fs[0]), fs[1..], ClusterIdOf(d, fs[0]));
  }

  function BroughtForward(fs: seq<Finding>, i: nat): (r: seq<Finding>)
    requires i < |fs|
    ensures |r| == |fs| && r[0] == fs[i]
    ensures multiset(r) == multiset(fs)
  {
    assert fs == fs[..i] + [fs[i]] + fs[i + 1..];
    [fs[i]] + fs[..i] + fs[i + 1..]
  }

  ghost predicate OrderIndependent(d: Digest, fs: seq<Finding>) {
    forall gs :: multiset(gs) == multiset(fs) ==> InsertAll(d, EMPTY, gs) == InsertAll(d, EMPTY, fs)
  }

  // ------------------------------------------------------ what order may not decide

  /** What one finding can contribute to its cluster. */
  datatype Quality = Severest | Surest | Validated | Showing(evidence: Bytes)

  ghost predicate Has(d: Digest, fs: set<Finding>, id: Bytes, q: Quality, g: Finding) {
    match q
    case Severest => forall h :: In(d, fs, id, h) ==> h.severity <= g.severity
    case Surest => forall h :: In(d, fs, id, h) ==> h.confidence <= g.confidence
    case Validated => g.validated
    case Showing(e) => g.evidence == e
  }

  /** Some id of the cluster has only findings with the quality. */
  ghost predicate Secured(d: Digest, fs: set<Finding>, id: Bytes, q: Quality) {
    exists f :: In(d, fs, id, f) && forall g :: g in fs && g.findingId == f.findingId ==> Has(d, fs, id, q, g)
  }

  /** Whichever finding of each id comes first, the cluster cannot miss a quality that it has. */
  ghost predicate SteadyCluster(d: Digest, fs: set<Finding>, id: Bytes) {
    && Secured(d, fs, id, Severest)
    && Secured(d, fs, id, Surest)
    && (forall f :: In(d, fs, id, f) && f.validated ==> Secured(d, fs, id, Validated))
    && (forall f :: In(d, fs, id, f) ==> Secured(d, fs, id, Showing(f.evidence)))
  }

  /** Findings that share an id share a cluster. */
  ghost predicate OneClusterPerId(d: Digest, fs: set<Finding>) {
    forall f, g :: f in fs && g in fs && f.findingId == g.findingId ==> ClusterIdOf(d, f) == ClusterIdOf(d, g)
  }

  ghost predicate Steady(d: Digest, fs: set<Finding>) {
    && NoPrefixCollision(d, fs)
    && OneClusterPerId(d, fs)
    && forall f :: f in fs ==> SteadyCluster(d, fs, ClusterIdOf(d, f))
  }

  // ------------------------------------------------- a steady list has one clustering

  /** The finding that stands for the id of f. */
  lemma Representative(fs: set<Finding>, kept: set<Finding>, f: Finding) returns (r: Finding)
    requires Chosen(fs, kept) && f in fs
    ensures r in kept && r in fs && r.findingId == f.findingId
  {
    r :| r in kept && r.findingId == f.findingId;
  }

  lemma SecuredIsKept(d: Digest, fs: set<Finding>, kept: set<Finding>, id: Bytes, q: Quality) returns (r: Finding)
    requires Chosen(fs, kept) && OneClusterPerId(d, fs) && Secured(d, fs, id, q)
    ensures In(d, kept, id, r) && Has(d, fs, id, q, r)
  {
    hide ClusterIdOf, KeyOf, Chosen, Has;
    var f :| In(d, fs, id, f) && forall g :: g in fs && g.findingId == f.findingId ==> Has(d, fs, id, q, g);
    r := Representative(fs, kept, f);
  }

  /** What is kept of a steady cluster has the extremes and the evidence of the whole cluster. */
  lemma KeptExtremes(d: Digest, fs: set<Finding>, kept: set<Finding>, id: Bytes, c: Cluster)
    requires Chosen(fs, kept) && OneClusterPerId(d, fs) && SteadyCluster(d, fs, id) && Summarises(d, kept, id, c)
    ensures forall h :: In(d, fs, id, h) ==> h.severity <= c.severity && h.confidence <= c.confidence
    ensures forall h :: In(d, fs, id, h) && h.validated ==> c.validated
    ensures forall h :: In(d, fs, id, h) ==> h.evidence in c.evidence
  {
    hide ClusterIdOf, KeyOf, Leq, Chosen, Secured;
    var s := SecuredIsKept(d, fs, kept, id, Severest);
    var t := SecuredIsKept(d, fs, kept, id, Surest);
    forall h | In(d, fs, id, h)
      ensures h.evidence in c.evidence && (h.validated ==> c.validated)
    {
      var e := SecuredIsKept(d, fs, kept, id, Showing(h.evidence));
      if h.validated {
        var v := SecuredIsKept(d, fs, kept, id, Validated);
      }
    }
  }

  /** The cluster that any choice leads to summarises all findings of a steady cluster. */
  lemma KeptSummarisesAll(d: Digest, fs: set<Finding>, kept: set<Finding>, id: Bytes, c: Cluster)
    requires Chosen(fs, kept) && OneClusterPerId(d, fs) && SteadyCluster(d, fs, id) && Summarises(d, kept, id, c)
    ensures Summarises(d, fs, id, c)
  {
    hide ClusterIdOf, KeyOf, Leq, SteadyCluster, Chosen, OneClusterPerId, In;
    KeptExtremes(d, fs, kept, id, c);
    KeptMembers(d, fs, kept, id, c);
    KeptLies(d, fs, kept, id);
    var k :| In(d, kept, id, k) && KeyOf(d, k) == c.dedupKey;
    var s :| In(d, kept, id, s) && s.severity == c.severity;
    var t :| In(d, kept, id, t) && t.confidence == c.confidence;
    assert In(d, fs, id, k) && In(d, fs, id, s) && In(d, fs, id, t);
    forall e | e in c.evidence
      ensures exists f :: In(d, fs, id, f) && f.evidence == e
    {
      var f :| In(d, kept, id, f) && f.evidence == e;
      assert In(d, fs, id, f);
    }
    if c.validated {
      var v :| In(d, kept, id, v) && v.validated;
      assert In(d, fs, id, v);
    }
  }

  lemma KeptMembers(d: Digest, fs: set<Finding>, kept: set<Finding>, id: Bytes, c: Cluster)
    requires Chosen(fs, kept) && OneClusterPerId(d, fs) && Summarises(d, kept, id, c)
    ensures forall m :: m in c.members <==> exists f :: In(d, fs, id, f) && f.findingId == m
    ensures forall f :: In(d, fs, id, f) ==> Leq(c.canonical, f.findingId)
  {
    hide ClusterIdOf, KeyOf, Leq, Chosen;
    KeptLies(d, fs, kept, id);
    forall f | In(d, fs, id, f)
      ensures f.findingId in c.members && Leq(c.canonical, f.findingId)
    {
      var r := Representative(fs, kept, f);
      assert In(d, kept, id, r);
    }
    forall m | m in c.members
      ensures exists f :: In(d, fs, id, f) && f.findingId == m
    {
      var f :| In(d, kept, id, f) && f.findingId == m;
      assert In(d, fs, id, f);
    }
  }

  lemma KeptLies(d: Digest, fs: set<Finding>, kept: set<Finding>, id: Bytes)
    requires Chosen(fs, kept)
    ensures forall f :: In(d, kept, id, f) ==> In(d, fs, id, f)
  {
    hide ClusterIdOf;
  }

  /** Whatever is kept of a steady set, the index describes the whole set. */
  lemma SteadyDescribes(d: Digest, fs: set<Finding>, kept: set<Finding>, s: Index)
    requires Chosen(fs, kept) && Steady(d, fs) && Describes(d, kept, s)
    ensures Describes(d, fs, s)
  {
    hide ClusterIdOf, KeyOf, Leq, Summarises, SteadyCluster, NoPrefixCollision, Chosen;
    forall f | f in fs
      ensures f.findingId in s.clusterOf && s.clusterOf[f.findingId] == ClusterIdOf(d, f)
      ensures ClusterIdOf(d, f) in s.clusters
    {
      var r := Representative(fs, kept, f);
      assert In(d, kept, ClusterIdOf(d, f), r);
    }
    ChosenIsPart(fs, kept);
    forall id | id in s.clusters
      ensures Summarises(d, fs, id, s.clusters[id]) && exists f :: In(d, fs, id, f)
    {
      var f :| In(d, kept, id, f);
      assert In(d, fs, id, f) && SteadyCluster(d, fs, id);
      KeptSummarisesAll(d, fs, kept, id, s.clusters[id]);
    }
  }

  lemma ChosenIsPart(fs: set<Finding>, kept: set<Finding>)
    requires Chosen(fs, kept)
    ensures kept <= fs
  {
  }

  // ------------------------------------------- an order-independent list is steady

  /** The findings with the quality, or those without it, in their order. */
  ghost function Those(d: Digest, all: set<Finding>, id: Bytes, q: Quality, has: bool, fs: seq<Finding>): seq<Finding> {
    if fs == [] then []
    else (if Has(d, all, id, q, fs[0]) == has then [fs[0]] else []) + Those(d, all, id, q, has, fs[1..])
  }

  lemma {:induction false} ThoseSplit(d: Digest, all: set<Finding>, id: Bytes, q: Quality, fs: seq<Finding>)
    ensures multiset(Those(d, all, id, q, false, fs) + Those(d, all, id, q, true, fs)) == multiset(fs)
  {
    hide Has;
    if fs != [] {
      assert fs == [fs[0]] + fs[1..];
      ThoseSplit(d, all, id, q, fs[1..]);
    }
  }

  lemma {:induction false} ThoseExact(d: Digest, all: set<Finding>, id: Bytes, q: Quality, has: bool, fs: seq<Finding>)
    ensures forall f :: f in Those(d, all, id, q, has, fs) <==> f in fs && Has(d, all, id, q, f) == has
  {
    hide Has;
    if fs != [] {
      assert fs == [fs[0]] + fs[1..];
      ThoseExact(d, all, id, q, has, fs[1..]);
    }
  }

  /** The order in which a quality is kept only if no finding of the same id lacks it. */
  ghost function LackingFirst(d: Digest, id: Bytes, q: Quality, fs: seq<Finding>): (gs: seq<Finding>)
    ensures multiset(gs) == multiset(fs)
  {
    ThoseSplit(d, AsSet(fs), id, q, fs);
    Those(d, AsSet(fs), id, q, false, fs) + Those(d, AsSet(fs), id, q, true, fs)
  }

  lemma KeptDespiteLacking(d: Digest, id: Bytes, q: Quality, fs: seq<Finding>, r: Finding)
    requires r in Kept(LackingFirst(d, id, q, fs)) && Has(d, AsSet(fs), id, q, r)
    ensures forall g :: g in AsSet(fs) && g.findingId == r.findingId ==> Has(d, AsSet(fs), id, q, g)
  {
    hide Has, KeptFrom, Chosen, Named;
    var lacking, having := Those(d, AsSet(fs), id, q, false, fs), Those(d, AsSet(fs), id, q, true, fs);
    ThoseExact(d, AsSet(fs), id, q, false, fs);
    KeptFromAppend({}, lacking, having);
    KeptIsChosen(lacking);
    ChosenParts(AsSet(lacking), Kept(lacking));
    KeptFromBounds(Kept(lacking), having);
    assert r !in lacking;
    forall g | g in AsSet(fs) && g.findingId == r.findingId
      ensures Has(d, AsSet(fs), id, q, g)
    {
      assert g in lacking ==> g in AsSet(lacking);
    }
  }

  lemma ChosenParts(fs: set<Finding>, kept: set<Finding>)
    requires Chosen(fs, kept)
    ensures kept <= fs && UniqueIds(kept) && forall f :: f in fs ==> Named(kept, f.findingId)
  {
  }

  /** A quality that some finding of the cluster keeps in every order is secured. */
  lemma KeptIsSecured(d: Digest, id: Bytes, q: Quality, fs: seq<Finding>, r: Finding)
    requires In(d, Kept(LackingFirst(d, id, q, fs)), id, r) && Has(d, AsSet(fs), id, q, r)
    ensures Secured(d, AsSet(fs), id, q)
  {
    hide Has, KeptFrom, LackingFirst, ClusterIdOf;
    KeptDespiteLacking(d, id, q, fs, r);
    KeptIsChosen(LackingFirst(d, id, q, fs));
    SameElements(fs, LackingFirst(d, id, q, fs));
    assert In(d, AsSet(fs), id, r);
  }

  lemma FirstIsKept(fs: seq<Finding>)
    requires fs != []
    ensures fs[0] in Kept(fs)
  {
    hide Chosen;
    var none: set<Finding> := {};
    assert none + {fs[0]} == {fs[0]};
    KeptFromBounds({fs[0]}, fs[1..]);
  }

  /** Every finding of an order-independent list leaves its mark on its cluster. */
  lemma EveryFindingCounts(d: Digest, fs: seq<Finding>, f: Finding)
    requires OrderIndependent(d, fs) && f in fs
    ensures var s := InsertAll(d, EMPTY, fs);
      && f.findingId in s.clusterOf && s.clusterOf[f.findingId] == ClusterIdOf(d, f)
      && ClusterIdOf(d, f) in s.clusters
      && var c := s.clusters[ClusterIdOf(d, f)];
         && f.severity <= c.severity && f.confidence <= c.confidence
         && (f.validated ==> c.validated) && f.evidence in c.evidence
  {
    hide InsertAll, ClusterIdOf, KeyOf, Leq, Kept, Summarises, Chosen, UniqueIds;
    var i :| 0 <= i < |fs| && fs[i] == f;
    var gs, id := BroughtForward(fs, i), ClusterIdOf(d, f);
    ClustersDescribe(d, gs);
    FirstIsKept(gs);
    assert In(d, Kept(gs), id, f);
    SummaryBounds(d, Kept(gs), id, InsertAll(d, EMPTY, fs).clusters[id], f);
  }

  lemma SummaryBounds(d: Digest, fs: set<Finding>, id: Bytes, c: Cluster, f: Finding)
    requires Summarises(d, fs, id, c) && In(d, fs, id, f)
    ensures f.severity <= c.severity && f.confidence <= c.confidence
    ensures (f.validated ==> c.validated) && f.evidence in c.evidence
  {
    hide ClusterIdOf, KeyOf, Leq;
  }

  lemma SteadyWhenIndependent(d: Digest, fs: seq<Finding>, f: Finding)
    requires OrderIndependent(d, fs) && f in fs
    ensures SteadyCluster(d, AsSet(fs), ClusterIdOf(d, f))
  {
    hide InsertAll, ClusterIdOf, KeyOf, Leq, KeptFrom, LackingFirst, Secured;
    var id := ClusterIdOf(d, f);
    EveryFindingCounts(d, fs, f);
    SecuredSeverity(d, fs, id);
    SecuredConfidence(d, fs, id);
    forall h | In(d, AsSet(fs), id, h)
      ensures Secured(d, AsSet(fs), id, Showing(h.evidence)) && (h.validated ==> Secured(d, AsSet(fs), id, Validated))
    {
      EveryFindingCounts(d, fs, h);
      SecuredEvidence(d, fs, id, h.evidence);
      if h.validated {
        SecuredValidation(d, fs, id);
      }
    }
  }

  /** In the order that holds a quality back, the cluster is the same and is drawn from what is kept. */
  lemma SameClusterHeldBack(d: Digest, fs: seq<Finding>, id: Bytes, q: Quality)
    requires OrderIndependent(d, fs) && id in InsertAll(d, EMPTY, fs).clusters
    ensures Summarises(d, Kept(LackingFirst(d, id, q, fs)), id, InsertAll(d, EMPTY, fs).clusters[id])
  {
    hide InsertAll, ClusterIdOf, KeyOf, Leq, KeptFrom, LackingFirst, Summarises;
    ClustersDescribe(d, LackingFirst(d, id, q, fs));
  }

  lemma SecuredSeverity(d: Digest, fs: seq<Finding>, id: Bytes)
    requires OrderIndependent(d, fs) && id in InsertAll(d, EMPTY, fs).clusters
    ensures Secured(d, AsSet(fs), id, Severest)
  {
    hide InsertAll, ClusterIdOf, KeyOf, Leq, KeptFrom, LackingFirst, Secured, OrderIndependent;
    var c := InsertAll(d, EMPTY, fs).clusters[id];
    SameClusterHeldBack(d, fs, id, Severest);
    var r :| In(d, Kept(LackingFirst(d, id, Severest, fs)), id, r) && r.severity == c.severity;
    forall h | In(d, AsSet(fs), id, h)
      ensures h.severity <= r.severity
    {
      EveryFindingCounts(d, fs, h);
    }
    KeptIsSecured(d, id, Severest, fs, r);
  }

  lemma SecuredConfidence(d: Digest, fs: seq<Finding>, id: Bytes)
    requires OrderIndependent(d, fs) && id in InsertAll(d, EMPTY, fs).clusters
    ensures Secured(d, AsSet(fs), id, Surest)
  {
    hide InsertAll, ClusterIdOf, KeyOf, Leq, KeptFrom, LackingFirst, Secured, OrderIndependent;
    var c := InsertAll(d, EMPTY, fs).clusters[id];
    SameClusterHeldBack(d, fs, id, Surest);
    var r :| In(d, Kept(LackingFirst(d, id, Surest, fs)), id, r) && r.confidence == c.confidence;
    forall h | In(d, AsSet(fs), id, h)
      ensures h.confidence <= r.confidence
    {
      EveryFindingCounts(d, fs, h);
    }
    KeptIsSecured(d, id, Surest, fs, r);
  }

  lemma SecuredValidation(d: Digest, fs: seq<Finding>, id: Bytes)
    requires OrderIndependent(d, fs) && id in InsertAll(d, EMPTY, fs).clusters
    requires InsertAll(d, EMPTY, fs).clusters[id].validated
    ensures Secured(d, AsSet(fs), id, Validated)
  {
    hide InsertAll, ClusterIdOf, KeyOf, Leq, KeptFrom, LackingFirst, Secured, OrderIndependent;
    SameClusterHeldBack(d, fs, id, Validated);
    var r :| In(d, Kept(LackingFirst(d, id, Validated, fs)), id, r) && r.validated;
    KeptIsSecured(d, id, Validated, fs, r);
  }

  lemma SecuredEvidence(d: Digest, fs: seq<Finding>, id: Bytes, e: Bytes)
    requires OrderIndependent(d, fs) && id in InsertAll(d, EMPTY, fs).clusters
    requires e in InsertAll(d, EMPTY, fs).clusters[id].evidence
    ensures Secured(d, AsSet(fs), id, Showing(e))
  {
    hide InsertAll, ClusterIdOf, KeyOf, Leq, KeptFrom, LackingFirst, Secured, OrderIndependent;
    SameClusterHeldBack(d, fs, id, Showing(e));
    var r :| In(d, Kept(LackingFirst(d, id, Showing(e), fs)), id, r) && r.evidence == e;
    KeptIsSecured(d, id, Showing(e), fs, r);
  }

  // ------------------------------------------------------------------ the exact condition

  /** A list is clustered alike in every order exactly when it is steady. */
  lemma OrderIndependentIff(d: Digest, fs: seq<Finding>)
    ensures OrderIndependent(d, fs) <==> Steady(d, AsSet(fs))
  {
    hide InsertAll, Describes, ClusterIdOf, KeyOf, SteadyCluster, Steady, Kept, Chosen, OrderIndependent;
    if Steady(d, AsSet(fs)) {
      SteadyIsIndependent(d, fs);
    }
    if OrderIndependent(d, fs) {
      IndependentIsSteady(d, fs);
    }
  }

  lemma SteadyIsIndependent(d: Digest, fs: seq<Finding>)
    requires Steady(d, AsSet(fs))
    ensures OrderIndependent(d, fs)
  {
    hide InsertAll, Describes, ClusterIdOf, KeyOf, SteadyCluster, OneClusterPerId, NoPrefixCollision, Kept, Chosen;
    forall gs | multiset(gs) == multiset(fs)
      ensures InsertAll(d, EMPTY, gs) == InsertAll(d, EMPTY, fs)
    {
      SameElements(fs, gs);
      ClustersDescribe(d, fs);
      ClustersDescribe(d, gs);
      SteadyDescribes(d, AsSet(fs), Kept(fs), InsertAll(d, EMPTY, fs));
      SteadyDescribes(d, AsSet(fs), Kept(gs), InsertAll(d, EMPTY, gs));
      DescriptionUnique(d, AsSet(fs), InsertAll(d, EMPTY, fs), InsertAll(d, EMPTY, gs));
    }
  }

  lemma IndependentIsSteady(d: Digest, fs: seq<Finding>)
    requires OrderIndependent(d, fs)
    ensures Steady(d, AsSet(fs))
  {
    hide InsertAll, ClusterIdOf, KeyOf, SteadyCluster, OrderIndependent;
    forall f, g | f in AsSet(fs) && g in AsSet(fs) && ClusterIdOf(d, f) == ClusterIdOf(d, g)
      ensures KeyOf(d, f) == KeyOf(d, g)
    {
      FirstComeKey(d, fs, f);
      FirstComeKey(d, fs, g);
    }
    forall f | f in AsSet(fs)
      ensures var s := InsertAll(d, EMPTY, fs);
        f.findingId in s.clusterOf && s.clusterOf[f.findingId] == ClusterIdOf(d, f)
      ensures SteadyCluster(d, AsSet(fs), ClusterIdOf(d, f))
    {
      EveryFindingCounts(d, fs, f);
      SteadyWhenIndependent(d, fs, f);
    }
  }

  lemma FirstComeKey(d: Digest, fs: seq<Finding>, f: Finding)
    requires OrderIndependent(d, fs) && f in fs
    ensures ClusterIdOf(d, f) in InsertAll(d, EMPTY, fs).clusters
    ensures InsertAll(d, EMPTY, fs).clusters[ClusterIdOf(d, f)].dedupKey == KeyOf(d, f)
  {
    hide InsertAll, ClusterIdOf, KeyOf;
    var i :| 0 <= i < |fs| && fs[i] == f;
    FirstFixesKey(d, BroughtForward(fs, i));
  }

  /** With unique ids only colliding prefixes can make the order matter. */
  lemma UniqueIdsOrderIndependent(d: Digest, fs: seq<Finding>)
    requires UniqueIds(AsSet(fs))
    ensures OrderIndependent(d, fs) <==> NoPrefixCollision(d, AsSet(fs))
  {
    hide InsertAll, Describes, ClusterIdOf, KeyOf, UniqueIds, Kept, SteadyCluster;
    if NoPrefixCollision(d, AsSet(fs)) {
      forall gs | multiset(gs) == multiset(fs)
        ensures InsertAll(d, EMPTY, gs) == InsertAll(d, EMPTY, fs)
      {
        SameElements(fs, gs);
        ClustersDescribe(d, fs);
        ClustersDescribe(d, gs);
        DescriptionUnique(d, AsSet(fs), InsertAll(d, EMPTY, fs), InsertAll(d, EMPTY, gs));
      }
    }
    if OrderIndependent(d, fs) {
      IndependentIsSteady(d, fs);
    }
  }

  lemma SameElements(fs: seq<Finding>, gs: seq<Finding>)
    requires multiset(fs) == multiset(gs)
    ensures AsSet(fs) == AsSet(gs)
  {
    forall f
      ensures f in fs <==> f in gs
    {
      assert f in fs <==> f in multiset(fs);
      assert f in gs <==> f in multiset(gs);
    }
  }

  ghost predicate SameContribution(d: Digest, f: Finding, g: Finding) {
    && KeyOf(d, f) == KeyOf(d, g) && f.evidence == g.evidence
    && f.severity == g.severity && f.confidence == g.confidence && f.validated == g.validated
  }

  /** Two findings that share an id: the order is harmless exactly when they contribute the same. */
  lemma SharedIdPairIff(d: Digest, f: Finding, g: Finding)
    requires f.findingId == g.findingId
    ensures OrderIndependent(d, [f, g]) <==> SameContribution(d, f, g)
  {
    hide OrderIndependent, Steady, SameContribution;
    OrderIndependentIff(d, [f, g]);
    assert AsSet([f, g]) == {f, g};
    if SameContribution(d, f, g) {
      PairIsSteady(d, f, g);
    }
    if Steady(d, {f, g}) {
      SteadyPairAgrees(d, f, g);
    }
  }

  lemma PairIsSteady(d: Digest, f: Finding, g: Finding)
    requires f.findingId == g.findingId && SameContribution(d, f, g)
    ensures Steady(d, {f, g})
  {
    hide KeyOf, ClusterIdOf, Secured;
    var fs, id := {f, g}, ClusterIdOf(d, f);
    SameKeySameCluster(d, f, g);
    PairSecures(d, f, g, Severest);
    PairSecures(d, f, g, Surest);
    PairSecures(d, f, g, Showing(f.evidence));
    if f.validated {
      PairSecures(d, f, g, Validated);
    }
    assert SteadyCluster(d, fs, id);
  }

  lemma SameKeySameCluster(d: Digest, f: Finding, g: Finding)
    requires KeyOf(d, f) == KeyOf(d, g)
    ensures ClusterIdOf(d, f) == ClusterIdOf(d, g)
  {
    hide KeyOf;
  }

  lemma PairSecures(d: Digest, f: Finding, g: Finding, q: Quality)
    requires var fs, id := {f, g}, ClusterIdOf(d, f); Has(d, fs, id, q, f) && Has(d, fs, id, q, g)
    ensures Secured(d, {f, g}, ClusterIdOf(d, f), q)
  {
    hide Has, ClusterIdOf;
    assert In(d, {f, g}, ClusterIdOf(d, f), f);
  }

  lemma SteadyPairAgrees(d: Digest, f: Finding, g: Finding)
    requires f.findingId == g.findingId && Steady(d, {f, g})
    ensures SameContribution(d, f, g)
  {
    hide ClusterIdOf, KeyOf, Secured, Has;
    var fs, id := {f, g}, ClusterIdOf(d, f);
    assert f in fs && g in fs;
    assert SteadyCluster(d, fs, id) && In(d, fs, id, f) && In(d, fs, id, g);
    AllHave(d, f, g, Severest);
    AllHave(d, f, g, Surest);
    AllHave(d, f, g, Showing(f.evidence));
    if f.validated || g.validated {
      AllHave(d, f, g, Validated);
    }
    BothHave(d, fs, id, f, g);
  }

  lemma AllHave(d: Digest, f: Finding, g: Finding, q: Quality)
    requires f.findingId == g.findingId && Secured(d, {f, g}, ClusterIdOf(d, f), q)
    ensures Has(d, {f, g}, ClusterIdOf(d, f), q, f) && Has(d, {f, g}, ClusterIdOf(d, f), q, g)
  {
    hide Has, ClusterIdOf;
  }

  lemma BothHave(d: Digest, fs: set<Finding>, id: Bytes, f: Finding, g: Finding)
    requires In(d, fs, id, f) && In(d, fs, id, g)
    ensures Has(d, fs, id, Severest, f) && Has(d, fs, id, Severest, g) ==> f.severity == g.severity
    ensures Has(d, fs, id, Surest, f) && Has(d, fs, id, Surest, g) ==> f.confidence == g.confidence
    ensures Has(d, fs, id, Showing(f.evidence), g) ==> f.evidence == g.evidence
    ensures Has(d, fs, id, Validated, f) && Has(d, fs, id, Validated, g) ==> f.validated && g.validated
  {
    hide ClusterIdOf;
  }

  /** A shared id across clusters: only the first of the two findings is kept. */
  lemma SharedIdDependsOnOrder(d: Digest, f: Finding, g: Finding)
    requires f.findingId == g.findingId && ClusterIdOf(d, f) != ClusterIdOf(d, g)
    ensures InsertAll(d, EMPTY, [f, g]) != InsertAll(d, EMPTY, [g, f])
  {
    hide InsertAll, ClusterIdOf, KeyOf, KeptFrom, Summarises;
    ClustersDescribe(d, [f, g]);
    ClustersDescribe(d, [g, f]);
    FirstIsKept([f, g]);
    FirstIsKept([g, f]);
  }

  // ---------------------------------------------------------------------- the object

  class Deduplicator {
    const digest: Digest
    var clusters: map<Bytes, Cluster>
    var clusterOf: map<Bytes, Bytes>

    ghost function Current(): Index
      reads this
    {
      Index(clusters, clusterOf)
    }

    /** Every id that has been seen leads to a stored cluster. */
    ghost predicate Valid()
      reads this
    {
      forall m :: m in clusterOf ==> clusterOf[m] in clusters
    }

    constructor (digest: Digest)
      ensures Current() == EMPTY && this.digest == digest && Valid()
    {
      this.digest := digest;
      clusters, clusterOf := map[], map[];
    }

    method Add(finding: Finding) returns (cluster: Cluster)
      requires Valid()
      modifies this
      ensures Valid()
      ensures Current() == Insert(digest, old(Current()), finding)
      ensures finding.findingId in clusterOf && cluster == clusters[clusterOf[finding.findingId]]
    {
      hide ClusterIdOf, KeyOf, Leq;
      if finding.findingId in clusterOf {
        return clusters[clusterOf[finding.findingId]];
      }
      var id := ClusterIdOf(digest, finding);
      cluster := if id in clusters then clusters[id] else Opened(digest, finding);
      cluster := cluster.(members := cluster.members + {finding.findingId});
      cluster := cluster.(evidence := cluster.evidence + {finding.evidence});
      cluster := cluster.(severity := MaxOf(cluster.severity, finding.severity));
      cluster := cluster.(confidence := MaxOf(cluster.confidence, finding.confidence));
      cluster := cluster.(validated := cluster.validated || finding.validated);
      if finding.findingId != cluster.canonical && Leq(finding.findingId, cluster.canonical) {
        cluster := cluster.(canonical := finding.findingId);
      }
      clusters := clusters[id := cluster];
      clusterOf := clusterOf[finding.findingId := id];
    }
  }
}
