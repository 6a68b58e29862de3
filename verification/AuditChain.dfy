/** The hash-linked audit log that every component appends to. */
module AuditChain {
  import opened Wrappers

  datatype Record<E, H> = Record(sequence: nat, previousHash: H, event: E, recordHash: H)

  /** The digest of a sequence number, the previous digest and an event. */
  type Hash<!E, !H> = (nat, H, E) -> H

  datatype FaultKind = SequenceMismatch | PreviousHashMismatch | RecordHashMismatch

  datatype Fault = BadRecord(index: nat, kind: FaultKind) | TailMismatch

  /** The link record i must carry, taking the records before it as sound. */
  function ExpectedPrevious<E, H>(genesis: H, records: seq<Record<E, H>>, i: nat): H
    requires i <= |records|
  {
    if i == 0 then genesis else records[i - 1].recordHash
  }

  function FaultAt<E, H(==)>(hash: Hash<E, H>, genesis: H, records: seq<Record<E, H>>, i: nat): Option<FaultKind>
    requires i < |records|
  {
    var r := records[i];
    if r.sequence != i + 1 then Some(SequenceMismatch)
    else if r.previousHash != ExpectedPrevious(genesis, records, i) then Some(PreviousHashMismatch)
    else if r.recordHash != hash(r.sequence, r.previousHash, r.event) then Some(RecordHashMismatch)
    else None
  }

  /** Records numbered from one, each linked to the digest before it, ending at the tail. */
  predicate Verified<E, H(==)>(hash: Hash<E, H>, genesis: H, records: seq<Record<E, H>>, tail: H) {
    && (forall i :: 0 <= i < |records| ==> FaultAt(hash, genesis, records, i).None?)
    && tail == ExpectedPrevious(genesis, records, |records|)
  }

  function Appended<E, H>(hash: Hash<E, H>, records: seq<Record<E, H>>, tail: H, event: E): (r: Record<E, H>) {
    Record(|records| + 1, tail, event, hash(|records| + 1, tail, event))
  }

  lemma AppendKeepsVerified<E, H>(hash: Hash<E, H>, genesis: H, records: seq<Record<E, H>>, tail: H, event: E)
    requires Verified(hash, genesis, records, tail)
    ensures var r := Appended(hash, records, tail, event);
      Verified(hash, genesis, records + [r], r.recordHash)
  {
    var r := Appended(hash, records, tail, event);
    var longer := records + [r];
    forall i | 0 <= i < |longer|
      ensures FaultAt(hash, genesis, longer, i).None?
    {
      if i < |records| {
        assert longer[i] == records[i] && FaultAt(hash, genesis, records, i).None?;
        assert i > 0 ==> longer[i - 1] == records[i - 1];
      }
    }
  }

  // ------------------------------------------------------------ tamper evidence

  function Digest<E, H>(hash: Hash<E, H>, r: Record<E, H>): H {
    hash(r.sequence, r.previousHash, r.event)
  }

  /** No two different materials of the two logs share a digest, and none has the genesis value. */
  predicate CollisionFree<E(==), H(==)>(hash: Hash<E, H>, genesis: H, a: seq<Record<E, H>>, b: seq<Record<E, H>>) {
    && (forall i, j :: 0 <= i < |a| && 0 <= j < |b| && Digest(hash, a[i]) == Digest(hash, b[j]) ==>
          a[i].sequence == b[j].sequence && a[i].previousHash == b[j].previousHash && a[i].event == b[j].event)
    && (forall i :: 0 <= i < |a| ==> Digest(hash, a[i]) != genesis)
    && (forall j :: 0 <= j < |b| ==> Digest(hash, b[j]) != genesis)
  }

  lemma VerifiedInit<E, H>(hash: Hash<E, H>, genesis: H, records: seq<Record<E, H>>, tail: H)
    requires Verified(hash, genesis, records, tail) && records != []
    ensures var n := |records| - 1;
      && Verified(hash, genesis, records[..n], records[n].previousHash)
      && tail == records[n].recordHash == Digest(hash, records[n])
      && records[n].sequence == n + 1
  {
    var n := |records| - 1;
    assert FaultAt(hash, genesis, records, n).None?;
    forall i | 0 <= i < n
      ensures FaultAt(hash, genesis, records[..n], i).None?
    {
      assert FaultAt(hash, genesis, records, i).None?;
    }
  }

  /** Without collisions the tail determines the whole log. */
  lemma {:induction false} TailDeterminesRecords<E, H>(hash: Hash<E, H>, genesis: H, a: seq<Record<E, H>>,
                                                       b: seq<Record<E, H>>, tail: H)
    requires Verified(hash, genesis, a, tail) && Verified(hash, genesis, b, tail)
    requires CollisionFree(hash, genesis, a, b)
    ensures a == b
    decreases |a|
  {
    if a != [] {
      VerifiedInit(hash, genesis, a, tail);
    }
    if b != [] {
      VerifiedInit(hash, genesis, b, tail);
    }
    if a != [] && b != [] {
      var m, n := |a| - 1, |b| - 1;
      assert Digest(hash, a[m]) == Digest(hash, b[n]);
      TailDeterminesRecords(hash, genesis, a[..m], b[..n], a[m].previousHash);
      assert a == a[..m] + [a[m]] && b == b[..n] + [b[n]];
    }
  }

  /** Altering any record of a verified log in place is detected. */
  lemma AlterationDetected<E, H>(hash: Hash<E, H>, genesis: H, records: seq<Record<E, H>>, tail: H, i: nat,
                                 altered: Record<E, H>)
    requires Verified(hash, genesis, records, tail)
    requires i < |records| && altered != records[i]
    requires CollisionFree(hash, genesis, records, records[i := altered])
    ensures !Verified(hash, genesis, records[i := altered], tail)
  {
    if Verified(hash, genesis, records[i := altered], tail) {
      assert records[i := altered][i] == altered;
      TailDeterminesRecords(hash, genesis, records, records[i := altered], tail);
    }
  }

  // -------------------------------------------------------------------- the log

  class Chain<E(==), H(==)> {
    const hash: Hash<E, H>
    const genesis: H
    var records: seq<Record<E, H>>
    var tail: H

    constructor (hash: Hash<E, H>, genesis: H)
      ensures this.hash == hash && this.genesis == genesis && records == [] && tail == genesis
      ensures Valid()
    {
      this.hash, this.genesis := hash, genesis;
      records, tail := [], genesis;
    }

    ghost predicate Valid()
      reads this
    {
      Verified(hash, genesis, records, tail)
    }

    method Append(event: E) returns (record: Record<E, H>)
      modifies this
      ensures record == Appended(hash, old(records), old(tail), event)
      ensures records == old(records) + [record] && tail == record.recordHash
      ensures old(Valid()) ==> Valid()
    {
      ghost var before, last := records, tail;
      var sequence := |records| + 1;
      record := Record(sequence, tail, event, hash(sequence, tail, event));
      records := records + [record];
      tail := record.recordHash;
      if Verified(hash, genesis, before, last) {
        AppendKeepsVerified(hash, genesis, before, last, event);
      }
    }

    /** Reports the first faulty record, then a wrong tail, then nothing. */
    method Verify() returns (fault: Option<Fault>)
      ensures fault.None? <==> Valid()
      ensures fault.Some? && fault.value.BadRecord? ==>
                && fault.value.index < |records|
                && FaultAt(hash, genesis, records, fault.value.index) == Some(fault.value.kind)
                && forall j :: 0 <= j < fault.value.index ==> FaultAt(hash, genesis, records, j).None?
      ensures fault == Some(TailMismatch) ==>
                && (forall j :: 0 <= j < |records| ==> FaultAt(hash, genesis, records, j).None?)
                && tail != ExpectedPrevious(genesis, records, |records|)
    {
      var expectedPrevious := genesis;
      for index := 0 to |records|
        invariant expectedPrevious == ExpectedPrevious(genesis, records, index)
        invariant forall j :: 0 <= j < index ==> FaultAt(hash, genesis, records, j).None?
      {
        var record := records[index];
        ghost var expected := FaultAt(hash, genesis, records, index);
        if record.sequence != index + 1 {
          return Some(BadRecord(index, SequenceMismatch));
        }
        if record.previousHash != expectedPrevious {
          return Some(BadRecord(index, PreviousHashMismatch));
        }
        var expectedHash := hash(record.sequence, record.previousHash, record.event);
        if record.recordHash != expectedHash {
          return Some(BadRecord(index, RecordHashMismatch));
        }
        expectedPrevious := expectedHash;
      }
      if tail != expectedPrevious {
        return Some(TailMismatch);
      }
      return None;
    }
  }
}
