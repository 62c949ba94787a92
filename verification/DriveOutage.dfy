/** A drive's way out of a partition and back: it is failed, the others go on being written, and it is rebuilt from the
  log drive.
 */
module DriveOutage {
  import opened Prelude
  import opened KineticStore
  import opened Replication
  import opened ReplicatedWrite
  import opened FailingWrite
  import opened KeyOrder
  import opened PartitionStore

  datatype Request<V> =
    | PutRequest(key: Key, expected: Version, record: Record<V>)
    | DeleteRequest(key: Key, expected: Version)

  // ---------------------------------------------------------------------------------------------
  // Versions
  // ---------------------------------------------------------------------------------------------

  /** No two drives have different records under the same version. */
  ghost predicate Unique<V(!new)>(slots: seq<Slot<V>>) {
    forall d, e :: 0 <= d < |slots| && 0 <= e < |slots| && slots[d].Present? && slots[e].Present? ==>
      slots[d].Version() == slots[e].Version() ==> slots[d] == slots[e]
  }

  ghost predicate Unused<V(!new)>(slots: seq<Slot<V>>, v: Version) {
    forall d :: 0 <= d < |slots| ==> slots[d].Version() != v
  }

  ghost predicate AllUnique<V(!new)>(home: Key -> bool, drives: seq<Drive<V>>) {
    forall key :: Data(home, key) ==> Unique(SlotsOf(drives, key))
  }

  ghost predicate AllUnused<V(!new)>(home: Key -> bool, drives: seq<Drive<V>>, v: Version) {
    forall key :: Data(home, key) ==> Unused(SlotsOf(drives, key), v)
  }

  /** Every slot holds what some drive held, or the new record. */
  ghost predicate FromBefore<V(!new)>(slots: seq<Slot<V>>, after: seq<Slot<V>>, record: Option<Record<V>>) {
    && |after| == |slots|
    && forall d :: 0 <= d < |after| ==>
         after[d].Absent? || after[d] in slots || (record.Some? && after[d] == Present(record.value))
  }

  lemma {:induction false} FromBeforeUnique<V(!new)>(
      slots: seq<Slot<V>>, after: seq<Slot<V>>, record: Option<Record<V>>)
    requires Unique(slots) && FromBefore(slots, after, record) && (record.Some? ==> Unused(slots, record.value.version))
    ensures Unique(after)
    ensures forall v :: v != "" && Unused(slots, v) && (record.Some? ==> record.value.version != v) ==> Unused(after, v)
  {
    forall d | 0 <= d < |after| && after[d] in slots ensures exists e :: 0 <= e < |slots| && slots[e] == after[d] {}
  }

  /** A write of one key from known records keeps versions identifying records, and unused versions unused. */
  lemma {:induction false} WriteKeepsVersions<V(!new)>(
      home: Key -> bool, drives: seq<Drive<V>>, drives': seq<Drive<V>>, key: Key, record: Option<Record<V>>,
        later: set<Version>)
    requires AllUnique(home, drives) && SameExcept(drives, drives', key) && Data(home, key)
    requires FromBefore(SlotsOf(drives, key), SlotsOf(drives', key), record)
    requires record.Some? ==> AllUnused(home, drives, record.value.version)
    requires forall v :: v in later ==>
      v != "" && AllUnused(home, drives, v) && (record.Some? ==> record.value.version != v)
    ensures AllUnique(home, drives') && forall v :: v in later ==> AllUnused(home, drives', v)
  {
    FromBeforeUnique(SlotsOf(drives, key), SlotsOf(drives', key), record);
    forall k | Data(home, k)
      ensures Unique(SlotsOf(drives', k)) && forall v :: v in later ==> Unused(SlotsOf(drives', k), v)
    {
      if k != key { assert SlotsOf(drives', k) == SlotsOf(drives, k); }
    }
  }

  // ---------------------------------------------------------------------------------------------
  // While the drive is away
  // ---------------------------------------------------------------------------------------------

  /** One drive is RED and all others are GREEN; what it misses is in the log. */
  ghost predicate Away<V(!new)>(p: Partition<V>, index: nat)
    reads p
  {
    && p.Valid() && p.Consistent() && index < |p.drives| && AllUnique(p.home, p.drives)
    && (forall d :: 0 <= d < |p.statuses| ==> p.statuses[d] == if d == index then Red else Green)
    && p.LogCovers(index)
  }

  ghost predicate Admissible<V(!new)>(home: Key -> bool, drives: seq<Drive<V>>, r: Request<V>) {
    Data(home, r.key) && (r.PutRequest? ==> r.record.version != "" && AllUnused(home, drives, r.record.version))
  }

  lemma {:induction false} UniqueIsTraceable<V(!new)>(statuses: seq<DriveStatus>, g: nat, slots: seq<Slot<V>>)
    requires |statuses| == |slots| && g < |slots| && Unique(slots)
    ensures Traceable(statuses, g, slots)
  {}

  /** All reachable drives are GREEN and agree, so no request fails one. */
  lemma {:induction false} GreensAreUniform<V(!new)>(
      statuses: seq<DriveStatus>, g: nat, index: nat, slots: seq<Slot<V>>)
    requires |statuses| == |slots| && GreensAgree(statuses, g, slots)
    requires forall d :: 0 <= d < |statuses| ==> statuses[d] == if d == index then Red else Green
    ensures UniformlyPresent(statuses, g, slots) && AllAgree(statuses, g, slots)
  {}

  method PutWhileAway<V(==, !new)>(
      p: Partition<V>, ghost index: nat, key: Key, expected: Version, record: Record<V>, available: bool,
      ghost later: set<Version>)
    requires Away(p, index) && Admissible(p.home, p.drives, PutRequest(key, expected, record))
    requires forall v :: v in later ==> v != "" && v != record.version && AllUnused(p.home, p.drives, v)
    modifies p
    ensures Away(p, index) && p.statuses == old(p.statuses) && |p.drives| == |old(p.drives)|
    ensures forall v :: v in later ==> AllUnused(p.home, p.drives, v)
  {
    ghost var g, slots, drives := p.Reference(), SlotsOf(p.drives, key), p.drives;
    ghost var op: Operation<V> := PutOp(expected, RequireSameVersion, record);
    assert GreensAgree(p.statuses, g, slots) && Unique(slots) && Unused(slots, record.version);
    UniqueIsTraceable(p.statuses, g, slots);
    PutLeftOver(p.statuses, slots, op);
    var _ := p.Put(key, expected, RequireSameVersion, record, {}, available);
    assert p.PutKeeps(key, slots, op);
    PutFromBefore(p.statuses, g, index, slots, op, SlotsOf(p.drives, key));
    WriteKeepsVersions(p.home, drives, p.drives, key, Some(record), later);
  }

  lemma {:induction false} PutFromBefore<V(!new)>(
      statuses: seq<DriveStatus>, g: nat, index: nat, slots: seq<Slot<V>>, op: Operation<V>, after: seq<Slot<V>>)
    requires op.PutOp? && |statuses| == |slots| == |after| && g < |slots| && PutLeaves(statuses, g, slots, op, after)
    requires forall d :: 0 <= d < |statuses| ==> statuses[d] == if d == index then Red else Green
    ensures FromBefore(slots, after, Some(op.record))
  {}

  method DeleteWhileAway<V(==, !new)>(
      p: Partition<V>, ghost index: nat, key: Key, expected: Version, available: bool, ghost later: set<Version>)
    requires Away(p, index) && Data(p.home, key)
    requires forall v :: v in later ==> v != "" && AllUnused(p.home, p.drives, v)
    modifies p
    ensures Away(p, index) && p.statuses == old(p.statuses) && |p.drives| == |old(p.drives)|
    ensures forall v :: v in later ==> AllUnused(p.home, p.drives, v)
  {
    ghost var g, slots, drives := p.Reference(), SlotsOf(p.drives, key), p.drives;
    assert GreensAgree(p.statuses, g, slots) && Unique(slots);
    UniqueIsTraceable(p.statuses, g, slots);
    GreensAreUniform(p.statuses, g, index, slots);
    var _ := p.Delete(key, expected, RequireSameVersion, available);
    assert FromBefore(slots, SlotsOf(p.drives, key), None);
    WriteKeepsVersions(p.home, drives, p.drives, key, None, later);
  }

  /** The versions requests bring are new, and different from each other. */
  ghost predicate Fresh<V(!new)>(home: Key -> bool, drives: seq<Drive<V>>, requests: seq<Request<V>>) {
    && (forall i :: 0 <= i < |requests| ==> Admissible(home, drives, requests[i]))
    && (forall i, j :: 0 <= i < j < |requests| && requests[i].PutRequest? && requests[j].PutRequest? ==>
          requests[i].record.version != requests[j].record.version)
  }

  ghost function Versions<V>(requests: seq<Request<V>>): set<Version> {
    set i | 0 <= i < |requests| && requests[i].PutRequest? :: requests[i].record.version
  }

  /** Whatever is put and deleted while the drive is away, the log has what it misses. */
  method WriteWhileAway<V(==, !new)>(p: Partition<V>, ghost index: nat, requests: seq<Request<V>>, available: bool)
    requires Away(p, index) && Fresh(p.home, p.drives, requests)
    modifies p
    ensures Away(p, index) && p.statuses == old(p.statuses) && |p.drives| == |old(p.drives)|
  {
    for i := 0 to |requests|
      invariant Away(p, index) && p.statuses == old(p.statuses) && |p.drives| == |old(p.drives)|
      invariant forall v :: v in Versions(requests[i..]) ==> AllUnused(p.home, p.drives, v)
    {
      ghost var later := Versions(requests[i + 1..]);
      LaterVersions(p.home, old(p.drives), requests, i);
      match requests[i] {
        case PutRequest(key, expected, record) => PutWhileAway(p, index, key, expected, record, available, later);
        case DeleteRequest(key, expected) => DeleteWhileAway(p, index, key, expected, available, later);
      }
    }
  }

  lemma {:induction false} LaterVersions<V(!new)>(
      home: Key -> bool, drives: seq<Drive<V>>, requests: seq<Request<V>>, i: nat)
    requires i < |requests| && Fresh(home, drives, requests)
    ensures Versions(requests[i + 1..]) <= Versions(requests[i..]) && "" !in Versions(requests[i..])
    ensures requests[i].PutRequest? ==>
      requests[i].record.version in Versions(requests[i..])
        && requests[i].record.version !in Versions(requests[i + 1..])
  {
    var here, rest := requests[i..], requests[i + 1..];
    forall v | v in Versions(rest) ensures v in Versions(here) {
      var j :| 0 <= j < |rest| && rest[j].PutRequest? && rest[j].record.version == v;
      assert here[j + 1] == rest[j];
    }
    if requests[i].PutRequest? { assert here[0] == requests[i]; }
  }

  // ---------------------------------------------------------------------------------------------
  // There and back
  // ---------------------------------------------------------------------------------------------

  /** A drive of a healthy partition is failed, any puts and deletes follow, and the drive is enabled and rebuilt.
    Then all drives are GREEN again and agree on every record whose key is in the range that is scanned. */
  method Outage<V(==, !new)>(
      p: Partition<V>, index: nat, requests: seq<Request<V>>, pick: nat, first: V, second: V, third: V)
    returns (ok: bool)
    requires p.Valid() && p.Consistent() && AllGreen(p.statuses) && p.log.None? && AllUnique(p.home, p.drives)
    requires index < |p.drives| && pick < |p.drives| && Fresh(p.home, p.drives, requests)
    modifies p
    ensures ok ==> p.Valid() && p.statuses == old(p.statuses)
    ensures ok ==> forall key :: Data(p.home, key) && Within(key, SCAN_START, true, SCAN_END, true) ==>
      GreensAgree(p.statuses, p.Reference(), SlotsOf(p.drives, key))
  {
    ghost var drives := p.drives;
    GreenMissesNothing(p, index);
    ok := p.DisableDrive(index, true, first);
    if !ok { return; }
    OtherKeysUntouched(p.home, drives, p.drives, p.clusterVersion, requests);
    WriteWhileAway(p, index, requests, true);
    drives := p.drives;
    ok := p.EnableDrive(index, second);
    if !ok { return; }
    ghost var v :| SameExcept(drives, p.drives, PublicationKey(v));
    OtherKeysUntouched(p.home, drives, p.drives, v, []);
    forall key | Data(p.home, key) ensures p.Identified(key) {
      UniqueIsTraceable(p.statuses, p.Reference(), SlotsOf(p.drives, key));
    }
    ok := p.SynchronizeDrive(index, pick, third);
  }

  lemma {:induction false} GreenMissesNothing<V(!new)>(p: Partition<V>, index: nat)
    requires p.Valid() && p.Consistent() && AllGreen(p.statuses) && p.log.None? && index < |p.drives|
    ensures p.Tracked(index)
  {
    forall key | Data(p.home, key) ensures !Behind(p.drives, p.Reference(), index, key) {
      assert GreensAgree(p.statuses, p.Reference(), SlotsOf(p.drives, key));
    }
  }

  /** A publication touches no record. */
  lemma {:induction false} OtherKeysUntouched<V(!new)>(
      home: Key -> bool, drives: seq<Drive<V>>, drives': seq<Drive<V>>, version: nat, requests: seq<Request<V>>)
    requires SameExcept(drives, drives', PublicationKey(version)) && AllUnique(home, drives)
      && Fresh(home, drives, requests)
    ensures AllUnique(home, drives') && Fresh(home, drives', requests)
  {
    PublicationApart(version);
    forall key | Data(home, key) ensures SlotsOf(drives', key) == SlotsOf(drives, key) {}
    forall i | 0 <= i < |requests| ensures Admissible(home, drives', requests[i]) {
      assert Admissible(home, drives, requests[i]);
    }
  }

  /** The scan ends at "|", so no record below a reused name is ever scanned. */
  lemma {:induction false} ReusedNamesNotScanned(source: set<Key>, key: Key)
    requires |key| > 1 && key[0] == '|'
    ensures !Scanned(source, key)
  {
    LessTotal(key, SCAN_END);
    assert Less(SCAN_END, key) by {
      assert SCAN_END[1..] == "" && key[1..] != "";
    }
  }

  // ---------------------------------------------------------------------------------------------
  // The write that fails a drive
  // ---------------------------------------------------------------------------------------------

  lemma {:induction false} OthersStay<V(!new)>(
      statuses: seq<DriveStatus>, slots: seq<Slot<V>>, op: Operation<V>, e: nat, other: nat)
    requires op.PutOp? && |statuses| == |slots| && AllGreen(statuses) && e < |statuses| && other < |statuses|
      && other != e
    ensures
      var left := LeftOver(statuses, slots, op, {e});
      left == statuses[e := Red] && TestPartition(left, true) && left != statuses
  {
    var left := LeftOver(statuses, slots, op, {e});
    assert left[other].Green? && left[e].Red?;
  }

  /** A put that one drive of a healthy partition answers with an error: the drive is failed and a log drive set up,
    which has everything the drive misses except the very record of this put. */
  method FailingPut<V(==, !new)>(
      p: Partition<V>, e: nat, other: nat, key: Key, record: Record<V>) returns (status: Status)
    requires p.Valid() && p.Consistent() && AllGreen(p.statuses) && p.log.None? && Data(p.home, key)
    requires e < |p.drives| && other < |p.drives| && other != e
    requires Unique(SlotsOf(p.drives, key)) && Unused(SlotsOf(p.drives, key), record.version) && record.version != ""
    modifies p
    ensures status == Ok && p.Valid() && p.statuses == old(p.statuses)[e := Red] && |p.drives| == |old(p.drives)|
    ensures p.LogCoversBut(e, key) && p.Differs(e, key) && !p.LogCovers(e)
  {
    ghost var g, slots := p.Reference(), SlotsOf(p.drives, key);
    ghost var op: Operation<V> := PutOp("", IgnoreVersion, record);
    assert GreensAgree(p.statuses, g, slots);
    UniqueIsTraceable(p.statuses, g, slots);
    OthersStay(p.statuses, slots, op, e, other);
    GreenMissesNothing(p, e);
    status := p.Put(key, "", IgnoreVersion, record, {e}, true);
    assert p.PutKeeps(key, slots, op);
    assert SlotsOf(p.drives, key)[e] == slots[e];
    assert SlotsOf(p.drives, key)[p.Reference()] == Present(record);
    assert p.Differs(e, key) && key !in p.log.value;
  }
}
