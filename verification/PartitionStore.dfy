/** A partition of the distributed namespace: replicated put and delete, read repair, publication of a new
  cluster version and the rebuild of a drive that was away.
 */
module PartitionStore {
  import opened Prelude
  import opened KineticStore
  import opened Replication
  import opened ReplicatedWrite
  import opened FailingWrite
  import opened KeyOrder
  import Decimal

  type Drive<V> = map<Key, Record<V>>

  const CLUSTER_VERSION_KEY := "clusterversion_"
  const SCAN_START := " "
  const SCAN_END := "|"
  const PAGE_SIZE := 100

  function SlotOf<V>(d: Drive<V>, key: Key): Slot<V> {
    if key in d then Present(d[key]) else Absent
  }

  function WithSlot<V>(d: Drive<V>, key: Key, s: Slot<V>): (r: Drive<V>)
    ensures SlotOf(r, key) == s
    ensures forall k :: k != key ==> SlotOf(r, k) == SlotOf(d, k)
  {
    if s.Present? then d[key := s.record] else d - {key}
  }

  function SlotsOf<V>(drives: seq<Drive<V>>, key: Key): (r: seq<Slot<V>>)
    ensures |r| == |drives|
    ensures forall d :: 0 <= d < |drives| ==> r[d] == SlotOf(drives[d], key)
  {
    seq(|drives|, d requires 0 <= d < |drives| => SlotOf(drives[d], key))
  }

  ghost predicate SameExcept<V(!new)>(before: seq<Drive<V>>, after: seq<Drive<V>>, key: Key) {
    |before| == |after| && forall k :: k != key ==> SlotsOf(after, k) == SlotsOf(before, k)
  }

  lemma {:induction false} SameSlotsSameDrive<V(!new)>(a: Drive<V>, b: Drive<V>)
    requires forall k :: SlotOf(a, k) == SlotOf(b, k)
    ensures a == b
  {
    assert forall k :: k in a <==> SlotOf(a, k).Present?;
    assert forall k :: k in b <==> SlotOf(b, k).Present?;
    forall k | k in a ensures a[k] == b[k] {
      assert SlotOf(a, k) == SlotOf(b, k);
    }
  }

  /** The log after a write of a key: the key is noted if some drive misses the write. */
  function Noted(log: Option<set<Key>>, statuses: seq<DriveStatus>, key: Key): Option<set<Key>> {
    if log.Some? && exists d :: 0 <= d < |statuses| && statuses[d].Red? then Some(log.value + {key}) else log
  }

  /** The first drive at or after d that refuses to store a new key, or the number of drives. */
  function FirstRefusal<V>(statuses: seq<DriveStatus>, slots: seq<Slot<V>>, d: nat): (r: nat)
    requires |statuses| == |slots| && d <= |statuses|
    ensures d <= r <= |statuses|
    ensures r < |statuses| ==> !statuses[r].Red? && slots[r].Version() != ""
    ensures forall i :: d <= i < r && !statuses[i].Red? ==> slots[i].Version() == ""
    decreases |statuses| - d
  {
    if d == |statuses| then d
    else if !statuses[d].Red? && slots[d].Version() != "" then d
    else FirstRefusal(statuses, slots, d + 1)
  }

  /** The slots after the drives before end were written. */
  function Published<V>(statuses: seq<DriveStatus>, slots: seq<Slot<V>>, record: Record<V>, end: nat): (r: seq<Slot<V>>)
    requires |statuses| == |slots|
    ensures |r| == |slots|
  {
    seq(|slots|, d requires 0 <= d < |slots| => if d < end && !statuses[d].Red? then Present(record) else slots[d])
  }

  /** A drive that turns GREEN leaves the GREEN drives with one version of a key exactly if it has theirs, and then with
    one record if versions identify records. */
  lemma {:induction false} PromotedAgree<V(!new)>(
      statuses: seq<DriveStatus>, g: nat, index: nat, g': nat, slots: seq<Slot<V>>)
    requires |statuses| == |slots| && IsFirstGreen(statuses, g) && index < |statuses| && Reachable(statuses, index)
    requires IsFirstGreen(statuses[index := Green], g') && GreensAgree(statuses, g, slots)
    ensures GreenVersionsAgree(statuses[index := Green], g', slots) <==> SameVersion(slots[index], slots[g])
    ensures SameVersion(slots[index], slots[g]) && Traceable(statuses, g, slots) ==>
      GreensAgree(statuses[index := Green], g', slots)
  {
    var promoted := statuses[index := Green];
    assert promoted[g].Green? && promoted[g'].Green? && promoted[index].Green?;
    assert g' == index || g' == g;
  }

  ghost predicate GreenVersionsAgree<V(!new)>(statuses: seq<DriveStatus>, g: nat, slots: seq<Slot<V>>)
    requires |statuses| == |slots|
  {
    g < |slots| && forall d :: 0 <= d < |statuses| && statuses[d].Green? ==> SameVersion(slots[d], slots[g])
  }

  function PublicationKey(version: nat): Key {
    CLUSTER_VERSION_KEY + Decimal.ToString(version)
  }

  lemma {:induction false} PublicationApart(version: nat)
    ensures IsPublication(PublicationKey(version))
  {}

  lemma {:induction false} MoreGreen(statuses: seq<DriveStatus>, index: nat)
    requires HasGreen(statuses) && index < |statuses|
    ensures HasGreen(statuses[index := Green])
  {
    var g := FirstGreen(statuses);
    assert IsFirstGreen(statuses[index := Green], if index < g then index else g);
  }

  /** No drive that is not RED has anything under the key. */
  ghost predicate Unpublished<V(!new)>(statuses: seq<DriveStatus>, slots: seq<Slot<V>>)
    requires |statuses| == |slots|
  {
    forall d :: Reachable(statuses, d) ==> slots[d].Version() == ""
  }

  ghost predicate PublishedOnAll<V(!new)>(statuses: seq<DriveStatus>, slots: seq<Slot<V>>, publication: V)
    requires |statuses| == |slots|
  {
    forall d :: Reachable(statuses, d) ==> slots[d] == Present(Record("yes", publication))
  }

  /** A publication goes through exactly when nobody has published before, and is then on every drive that is not RED.
    */
  lemma {:induction false} PublicationExact<V(!new)>(statuses: seq<DriveStatus>, slots: seq<Slot<V>>, publication: V)
    requires |statuses| == |slots|
    ensures
      var end := FirstRefusal(statuses, slots, 0);
      && (end == |statuses| <==> Unpublished(statuses, slots))
      && (end == |statuses| ==>
            PublishedOnAll(statuses, Published(statuses, slots, Record("yes", publication), end), publication))
  {
    var end := FirstRefusal(statuses, slots, 0);
    if end < |statuses| { assert Reachable(statuses, end); }
  }

  /** The keys a scan of a source comes across. */
  predicate Scanned(source: set<Key>, key: Key) {
    key in source && Within(key, SCAN_START, true, SCAN_END, true)
  }

  lemma {:induction false} KeysExcept<V(!new)>(before: seq<Drive<V>>, after: seq<Drive<V>>, key: Key, d: nat)
    requires SameExcept(before, after, key) && d < |before|
    ensures forall k :: k != key ==> (k in after[d] <==> k in before[d])
  {
    forall k | k != key ensures k in after[d] <==> k in before[d] {
      assert SlotsOf(after, k)[d] == SlotsOf(before, k)[d];
      assert SlotOf(after[d], k) == SlotOf(before[d], k);
    }
  }

  /** Where a scan is: what it has seen is of the source and in range; what it has not seen is still there, behind the
    last key of a full page. */
  ghost predicate ScanState(all: set<Key>, source: set<Key>, seen: set<Key>, page: seq<Key>) {
    && source <= all && |page| <= PAGE_SIZE
    && (forall k :: k in seen ==> Scanned(all, k))
    && (forall k :: k in page ==> k in seen)
    && (forall k :: Scanned(all, k) && k !in seen ==>
          |page| == PAGE_SIZE && k in source && Less(page[PAGE_SIZE - 1], k))
  }

  /** What repairing a page leaves of the source: only keys of the page may have gone. */
  ghost predicate RepairedSource(source: set<Key>, source': set<Key>, page: seq<Key>) {
    forall k :: k !in page ==> (k in source' <==> k in source)
  }

  lemma {:induction false} FullPageAdvances(source: set<Key>, start: Key)
    ensures
      var page := Page(source, start, true, SCAN_END, true, PAGE_SIZE);
      |page| == PAGE_SIZE ==> Less(start, page[PAGE_SIZE - 1])
  {
    var page := Page(source, start, true, SCAN_END, true, PAGE_SIZE);
    PageIsPrefix(source, start, true, SCAN_END, true, PAGE_SIZE);
    if |page| == PAGE_SIZE {
      assert page[0] in page && Less(page[0], page[PAGE_SIZE - 1]);
      if start != page[0] { LessTransitive(start, page[0], page[PAGE_SIZE - 1]); }
    }
  }

  lemma {:induction false} FirstScanPage(all: set<Key>, source': set<Key>, page: seq<Key>)
    requires page == Page(all, SCAN_START, true, SCAN_END, true, PAGE_SIZE) && RepairedSource(all, source', page)
    ensures ScanState(all, source', (set k | k in page), page)
  {
    PageIsPrefix(all, SCAN_START, true, SCAN_END, true, PAGE_SIZE);
    assert |page| == PAGE_SIZE ==> page != [];
  }

  lemma {:induction false} NextScanPage(
      all: set<Key>, source: set<Key>, seen: set<Key>, page: seq<Key>, source': set<Key>, next: seq<Key>)
    requires ScanState(all, source, seen, page) && |page| == PAGE_SIZE
    requires next == Page(source, page[PAGE_SIZE - 1], true, SCAN_END, true, PAGE_SIZE)
    requires RepairedSource(source, source', next)
    ensures ScanState(all, source', seen + (set k | k in next), next)
  {
    var start := page[PAGE_SIZE - 1];
    PageIsPrefix(source, start, true, SCAN_END, true, PAGE_SIZE);
    assert start in page && Scanned(all, start);
    assert |next| == PAGE_SIZE ==> next != [];
    forall k | k in next ensures Scanned(all, k) {
      if start != k && SCAN_START != start { LessTransitive(SCAN_START, start, k); }
    }
  }

  /** With another reference drive that is GREEN before and after, the GREEN drives still agree. */
  lemma {:induction false} OtherGreen<V(!new)>(
      home: Key -> bool, drives: seq<Drive<V>>, statuses: seq<DriveStatus>, g: nat,
      drives': seq<Drive<V>>, left: seq<DriveStatus>, h: nat, key: Key)
    requires |drives| == |drives'| == |statuses| == |left| && IsFirstGreen(statuses, g) && IsFirstGreen(left, h)
    requires forall d :: 0 <= d < |left| ==> left[d] == statuses[d] || left[d].Red?
    requires SameExcept(drives, drives', key) && !Data(home, key)
    requires forall k :: Data(home, k) ==> GreensAgree(statuses, g, SlotsOf(drives, k))
    ensures forall k :: Data(home, k) ==> GreensAgree(left, h, SlotsOf(drives', k))
    ensures forall k :: Data(home, k) ==> SlotsOf(drives, k)[h] == SlotsOf(drives, k)[g]
  {
    forall k | Data(home, k)
      ensures GreensAgree(left, h, SlotsOf(drives', k)) && SlotsOf(drives, k)[h] == SlotsOf(drives, k)[g]
    {
      assert GreensAgree(statuses, g, SlotsOf(drives, k));
      assert SlotsOf(drives', k) == SlotsOf(drives, k);
    }
  }

  /** Publications are written to the drives directly, whatever partition their key belongs to. */
  predicate IsPublication(key: Key) {
    CLUSTER_VERSION_KEY <= key
  }

  /** The keys whose records live in this partition; home is what the key hash says. */
  predicate Data(home: Key -> bool, key: Key) {
    home(key) && !IsPublication(key)
  }

  /** Drive d has another version of the key than drive g. */
  ghost predicate Behind<V>(drives: seq<Drive<V>>, g: nat, d: nat, key: Key)
    requires g < |drives| && d < |drives|
  {
    !SameVersion(SlotsOf(drives, key)[d], SlotsOf(drives, key)[g])
  }

  /** Every record on which drive d is behind drive g is noted. */
  ghost predicate Covered<V>(home: Key -> bool, drives: seq<Drive<V>>, g: nat, d: nat, noted: set<Key>)
    requires g < |drives| && d < |drives|
  {
    forall key :: Data(home, key) && Behind(drives, g, d, key) ==> key in noted
  }

  /** A change to one key, and to the reference drive, keeps what is noted complete if the key itself is taken care of.
    */
  lemma {:induction false} StillCovered<V(!new)>(
      home: Key -> bool, drives: seq<Drive<V>>, g: nat, noted: set<Key>,
      drives': seq<Drive<V>>, g': nat, noted': set<Key>, d: nat, key: Key)
    requires |drives| == |drives'| && g < |drives| && g' < |drives| && d < |drives|
    requires SameExcept(drives, drives', key) && noted <= noted' && Covered(home, drives, g, d, noted)
    requires forall k :: Data(home, k) ==> SlotsOf(drives, k)[g'] == SlotsOf(drives, k)[g]
    requires Data(home, key) && Behind(drives', g', d, key) ==> key in noted'
    ensures Covered(home, drives', g', d, noted')
  {
    forall k | Data(home, k) && Behind(drives', g', d, k) ensures k in noted' {
      if k != key {
        assert SlotsOf(drives', k) == SlotsOf(drives, k);
        assert Behind(drives, g, d, k);
      }
    }
  }

  /** GREEN drives that are left still agree on every record. */
  lemma {:induction false} GreensStillAgree<V(!new)>(
      home: Key -> bool, drives: seq<Drive<V>>, statuses: seq<DriveStatus>, g: nat,
      drives': seq<Drive<V>>, left: seq<DriveStatus>, h: nat, key: Key, op: Operation<V>)
    requires |drives| == |drives'| == |statuses| == |left| && IsFirstGreen(statuses, g) && IsFirstGreen(left, h)
    requires forall d :: 0 <= d < |left| ==> left[d] == statuses[d] || left[d].Red?
    requires SameExcept(drives, drives', key) && PutLeaves(left, h, SlotsOf(drives, key), op, SlotsOf(drives', key))
    requires forall k :: Data(home, k) ==> GreensAgree(statuses, g, SlotsOf(drives, k))
    ensures forall k :: Data(home, k) ==> GreensAgree(left, h, SlotsOf(drives', k))
    ensures forall k :: Data(home, k) ==> SlotsOf(drives, k)[h] == SlotsOf(drives, k)[g]
  {
    forall k | Data(home, k) ensures GreensAgree(left, h, SlotsOf(drives', k)) {
      assert GreensAgree(statuses, g, SlotsOf(drives, k));
      if k != key { assert SlotsOf(drives', k) == SlotsOf(drives, k); }
    }
    forall k | Data(home, k) ensures SlotsOf(drives, k)[h] == SlotsOf(drives, k)[g] {
      assert GreensAgree(statuses, g, SlotsOf(drives, k));
    }
  }

  /** Drives are as far behind after a put as before, short of those that missed it. */
  lemma {:induction false} PutCovers<V(!new)>(
      home: Key -> bool, drives: seq<Drive<V>>, g: nat, noted: set<Key>, drives': seq<Drive<V>>, h: nat,
        noted': set<Key>,
      left: seq<DriveStatus>, op: Operation<V>, d: nat, key: Key)
    requires |drives| == |drives'| == |left| && g < |drives| && h < |drives| && d < |drives|
    requires SameExcept(drives, drives', key) && noted <= noted' && Covered(home, drives, g, d, noted)
    requires forall k :: Data(home, k) ==> SlotsOf(drives, k)[h] == SlotsOf(drives, k)[g]
    requires PutLeaves(left, h, SlotsOf(drives, key), op, SlotsOf(drives', key))
    requires left[d].Red? ==> key in noted'
    ensures Covered(home, drives', h, d, noted')
  {
    if Data(home, key) && Behind(drives', h, d, key) && !left[d].Red? {
      assert Reachable(left, d);
      assert SlotsOf(drives', key) == SlotsOf(drives, key);
      assert Behind(drives, g, d, key);
    }
    StillCovered(home, drives, g, noted, drives', h, noted', d, key);
  }

  lemma {:induction false} DeleteCovers<V(!new)>(
      home: Key -> bool, drives: seq<Drive<V>>, g: nat, noted: set<Key>, drives': seq<Drive<V>>, noted': set<Key>,
      statuses: seq<DriveStatus>, d: nat, key: Key)
    requires |drives| == |drives'| == |statuses| && g < |drives| && d < |drives|
    requires SameExcept(drives, drives', key) && noted <= noted' && Covered(home, drives, g, d, noted)
    requires DeleteLeaves(statuses, g, SlotsOf(drives, key), SlotsOf(drives', key))
    requires statuses[d].Red? ==> key in noted'
    ensures Covered(home, drives', g, d, noted')
  {
    if Data(home, key) && Behind(drives', g, d, key) && !statuses[d].Red? {
      assert Reachable(statuses, d);
      assert Behind(drives, g, d, key);
    }
    StillCovered(home, drives, g, noted, drives', g, noted', d, key);
  }

  predicate AllGreen(statuses: seq<DriveStatus>) {
    forall d :: 0 <= d < |statuses| ==> statuses[d].Green?
  }

  /** A log drive is set up, if one is available, when the first of a partition's drives is failed. */
  predicate HasLog(log: Option<set<Key>>, statuses: seq<DriveStatus>, available: bool) {
    log.Some? || (AllGreen(statuses) && available)
  }

  function LogAfter(
      log: Option<set<Key>>, before: seq<DriveStatus>, after: seq<DriveStatus>, available: bool): Option<set<Key>> {
    if log.None? && AllGreen(before) && available && after != before then Some({}) else log
  }

  class Partition<V(==, !new)> {
    var statuses: seq<DriveStatus>
    var drives: seq<Drive<V>>
    var clusterVersion: nat
    /** Keys noted on the log drive, if the partition has one. */
    var log: Option<set<Key>>
    /** Whether the hash of a key leads to this partition. */
    const home: Key -> bool

    ghost predicate Valid()
      reads `statuses, `drives
    {
      |statuses| == |drives| && HasGreen(statuses)
    }

    /** The drive that reads and read repair refer to. */
    ghost function Reference(): nat
      requires Valid()
      reads `statuses, `drives
    {
      Replication.FirstGreen(statuses)
    }

    method FirstGreen() returns (g: nat)
      requires Valid()
      ensures g == Reference()
    {
      g := 0;
      while !statuses[g].Green?
        invariant g < |statuses| && forall d :: 0 <= d < g ==> !statuses[d].Green?
        decreases |statuses| - g
      {
        g := g + 1;
      }
      assert IsFirstGreen(statuses, g);
    }

    /** One drive stores or drops one key. */
    method SetSlot(d: nat, key: Key, s: Slot<V>)
      requires d < |drives|
      modifies `drives
      ensures |drives| == |old(drives)| && SlotsOf(drives, key) == SlotsOf(old(drives), key)[d := s]
      ensures SameExcept(old(drives), drives, key)
    {
      drives := drives[d := WithSlot(drives[d], key, s)];
      forall k | k != key ensures SlotsOf(drives, k) == SlotsOf(old(drives), k) {
      }
    }

    /** GREEN drives agree on every record of the partition. */
    ghost predicate Consistent()
      requires Valid()
      reads this
    {
      forall key :: Data(home, key) ==> GreensAgree(statuses, Reference(), SlotsOf(drives, key))
    }

    /** Versions identify the records of this key. */
    ghost predicate Identified(key: Key)
      requires Valid()
      reads `statuses, `drives
    {
      Traceable(statuses, Reference(), SlotsOf(drives, key))
    }

    /** Drive index has another version of the key than the GREEN drives. */
    ghost predicate Differs(index: nat, key: Key)
      requires Valid() && index < |drives|
      reads `statuses, `drives
    {
      Behind(drives, Reference(), index, key)
    }

    /** The log drive has every record on which drive d is behind the GREEN drives. */
    ghost predicate LogCovers(d: nat)
      requires Valid() && d < |drives|
      reads this
    {
      log.Some? && Covered(home, drives, Reference(), d, log.value)
    }

    /** What drive d misses is in the log; without a log, it misses nothing. */
    ghost predicate Tracked(d: nat)
      requires Valid() && d < |drives|
      reads this
    {
      Covered(home, drives, Reference(), d, if log.Some? then log.value else {})
    }

    /** Sends the operation to every drive that is not RED; those in errors answer with an error. If some drive is RED,
      the key is noted on the log drive. */
    method WriteOperation(key: Key, op: Operation<V>, errors: set<int>) returns (answers: seq<Status>)
      requires Valid()
      modifies `drives, `log
      ensures |drives| == |old(drives)| && SameExcept(old(drives), drives, key)
      ensures SlotsOf(drives, key) == Sent(statuses, SlotsOf(old(drives), key), op, errors)
      ensures answers == Replies(statuses, SlotsOf(old(drives), key), op, errors)
      ensures log == Noted(old(log), statuses, key)
    {
      answers := [];
      ghost var before := SlotsOf(drives, key);
      for d := 0 to |drives|
        invariant |drives| == |old(drives)| == |statuses| == |before| && log == old(log)
        invariant |answers| == d && forall i :: 0 <= i < d ==> answers[i] == Replies(statuses, before, op, errors)[i]
        invariant forall i :: 0 <= i < |drives| ==>
          SlotsOf(drives, key)[i] == if i < d then Sent(statuses, before, op, errors)[i] else before[i]
        invariant SameExcept(old(drives), drives, key)
      {
        if statuses[d].Red? || d in errors {
          answers := answers + [Unreachable];
        } else {
          var s := SlotOf(drives[d], key);
          assert s == SlotsOf(drives, key)[d];
          SetSlot(d, key, op.SlotOn(s));
          answers := answers + [op.StatusOn(s)];
        }
      }
      log := Noted(log, statuses, key);
    }

    /** Steps B to D of evaluating a write. Failing the first drive sets up a log drive if one is available. */
    method EvaluateWriteOperation(answers: seq<Status>, available: bool) returns (outcome: Outcome)
      requires Valid() && |answers| == |statuses|
      modifies `statuses, `log
      ensures |statuses| == |old(statuses)|
      ensures (statuses, outcome) == Evaluated(old(statuses), answers, HasLog(old(log), old(statuses), available))
      ensures log == LogAfter(old(log), old(statuses), statuses, available)
      decreases |Live(statuses)|
    {
      var first := EvaluateOnce(answers);
      if !first.FailDrive? { return first; }
      FailingShrinks(statuses, first.drive);
      SetRed(first.drive, available);
      SomeGreenExactly(statuses);
      if TestPartition(statuses, log.Some?) {
        EvaluatedColours(statuses, answers, log.Some?);
        outcome := EvaluateWriteOperation(answers, available);
      } else {
        outcome := Agreed(answers[first.drive]);
      }
    }

    /** A drive turns RED; if it is the first one, a log drive is set up. */
    method SetRed(d: nat, available: bool)
      requires Reachable(statuses, d)
      modifies `statuses, `log
      ensures statuses == old(statuses)[d := Red] && log.Some? == HasLog(old(log), old(statuses), available)
      ensures log == LogAfter(old(log), old(statuses), statuses, available) && !AllGreen(statuses)
    {
      if log.None? && AllGreen(statuses) && available { log := Some({}); }
      statuses := statuses[d := Red];
      assert !statuses[d].Green?;
    }

    method EvaluateOnce(answers: seq<Status>) returns (outcome: Outcome)
      requires Valid() && |answers| == |statuses|
      ensures outcome == Evaluate(statuses, Reference(), answers)
    {
      var g := FirstGreen();
      var equal := true;
      for d := 0 to |statuses|
        invariant equal <==> forall i :: 0 <= i < d && !statuses[i].Red? ==> answers[i] == answers[g]
      {
        if !statuses[d].Red? && answers[d] != answers[g] { equal := false; }
      }
      if equal {
        assert AllEqual(statuses, g, answers);
        return Agreed(answers[g]);
      }
      for d := 0 to |statuses|
        invariant FirstUnexpected(statuses, answers, 0) == FirstUnexpected(statuses, answers, d)
      {
        if !statuses[d].Red? && Unexpected(answers[d]) {
          return FailDrive(d);
        }
      }
      return PartialWrite;
    }

    /** Enforces the reference drive's slot on every reachable drive. */
    method ReadRepair(key: Key) returns (reference: Slot<V>)
      requires Valid()
      modifies `drives
      ensures |drives| == |old(drives)| && SameExcept(old(drives), drives, key)
      ensures reference == SlotsOf(old(drives), key)[Reference()]
      ensures SlotsOf(drives, key) == Repaired(statuses, Reference(), SlotsOf(old(drives), key))
    {
      var g := FirstGreen();
      reference := SlotOf(drives[g], key);
      ghost var before := SlotsOf(drives, key);
      for d := 0 to |drives|
        invariant |drives| == |old(drives)| == |statuses| == |before|
        invariant reference == before[g]
        invariant forall i :: 0 <= i < |drives| ==>
          SlotsOf(drives, key)[i] == if i < d then Repaired(statuses, g, before)[i] else before[i]
        invariant SameExcept(old(drives), drives, key)
      {
        if !statuses[d].Red? {
          var seen := SlotOf(drives[d], key);
          assert seen == SlotsOf(drives, key)[d];
          if reference.Absent? {
            if seen.Present? {
              SetSlot(d, key, DeleteSlot(seen, seen.Version(), RequireSameVersion));
            }
          } else if !(seen.Present? && seen.Version() == reference.Version()) {
            SetSlot(d, key, PutSlot(seen, seen.Version(), RequireSameVersion, reference.record));
          }
        }
      }
    }

    /** Put and Delete: write, evaluate, and repair a partial write. */
    method Write(key: Key, op: Operation<V>, errors: set<int>, available: bool) returns (status: Status)
      requires Valid()
      modifies `drives, `log, `statuses
      ensures |drives| == |old(drives)| && SameExcept(old(drives), drives, key)
      ensures
        (statuses, SlotsOf(drives, key), status) ==
          WriteFully(old(statuses), SlotsOf(old(drives), key), op, errors, HasLog(old(log), old(statuses), available))
      ensures log == LogAfter(Noted(old(log), old(statuses), key), old(statuses), statuses, available)
    {
      var answers := WriteOperation(key, op, errors);
      var outcome := EvaluateWriteOperation(answers, available);
      if outcome.PartialWrite? {
        var reference := ReadRepair(key);
        status := op.StatusAfterRepair(reference);
      } else {
        status := outcome.status;
      }
    }

    /** The log drive has every record on which drive d is behind, except possibly this one. */
    ghost predicate LogCoversBut(d: nat, key: Key)
      requires Valid() && d < |drives|
      reads this
    {
      log.Some? && Covered(home, drives, Reference(), d, log.value + {key})
    }

    /** The GREEN drives that are left agree on every record. */
    ghost predicate PutKeeps(key: Key, slots: seq<Slot<V>>, op: Operation<V>)
      requires Valid() && |slots| == |drives|
      reads this
    {
      PutLeaves(statuses, Reference(), slots, op, SlotsOf(drives, key))
    }

    /** The caller cannot tell the partition from one compare-and-set drive exactly when the partition can do without
      the drives that answer with an error. What a drive misses is then in the log, except that a drive that is failed
      by this very put misses it without a note. */
    method Put(key: Key, expected: Version, mode: WriteMode, record: Record<V>, errors: set<int>, available: bool)
      returns (status: Status)
      requires Valid() && GreensAgree(statuses, Reference(), SlotsOf(drives, key)) && Identified(key)
      requires mode.RequireSameVersion? ==> FreshVersion(statuses, SlotsOf(drives, key), record.version)
      modifies `drives, `log, `statuses
      ensures |statuses| == |drives| == |old(drives)| && SameExcept(old(drives), drives, key)
      ensures log == LogAfter(Noted(old(log), old(statuses), key), old(statuses), statuses, available)
      ensures
        var op, slots := PutOp(expected, mode, record), SlotsOf(old(drives), key);
        var spared := Spared(old(statuses), slots, op, errors, HasLog(old(log), old(statuses), available));
        && (status == PutStatus(slots[old(Reference())], expected, mode) <==> spared)
        && (spared ==> statuses == LeftOver(old(statuses), slots, op, errors) && Valid() && PutKeeps(key, slots, op))
        && (spared && old(Consistent()) ==> Consistent())
        && (spared && old(Consistent()) && log.Some? ==> forall d: nat :: d < |drives| && old(Tracked(d)) ==>
              LogCoversBut(d, key) && (d !in errors || old(statuses)[d].Red? ==> LogCovers(d)))
    {
      ghost var g, slots, op := Reference(), SlotsOf(drives, key), PutOp(expected, mode, record);
      ghost var hasLog := HasLog(log, statuses, available);
      PutExact(statuses, g, slots, op, errors, hasLog);
      status := Write(key, PutOp(expected, mode, record), errors, available);
      if Spared(old(statuses), slots, op, errors, hasLog) {
        LeftAgrees(old(statuses), g, slots, op, errors);
        if old(Consistent()) {
          ghost var h := Reference();
          GreensStillAgree(home, old(drives), old(statuses), g, drives, statuses, h, key, op);
          if log.Some? {
            ghost var noted := if old(log).Some? then old(log).value else {};
            forall d: nat | d < |drives| && old(Tracked(d))
              ensures LogCoversBut(d, key) && (d !in errors || old(statuses)[d].Red? ==> LogCovers(d))
            {
              PutCovers(home, old(drives), g, noted, drives, h, log.value + {key}, statuses, op, d, key);
              if d !in errors || old(statuses)[d].Red? {
                PutCovers(home, old(drives), g, noted, drives, h, log.value, statuses, op, d, key);
              }
            }
          }
        }
      }
    }

    /** A delete is answered as by one drive under the exact condition; GREEN drives that are left are as that drive
      would be in any case; and what drives miss stays in the log. */
    method Delete(key: Key, expected: Version, mode: WriteMode, available: bool) returns (status: Status)
      requires Valid() && GreensAgree(statuses, Reference(), SlotsOf(drives, key)) && Identified(key)
      modifies `drives, `log, `statuses
      ensures |statuses| == |drives| == |old(drives)| && SameExcept(old(drives), drives, key)
      ensures
        var g, slots := old(Reference()), SlotsOf(old(drives), key);
        && (status == DeleteStatus(slots[g], expected, mode) <==>
              DeleteAnswers(old(statuses), g, slots, HasLog(old(log), old(statuses), available)))
        && (forall d :: 0 <= d < |statuses| && statuses[d].Green? ==>
              SlotsOf(drives, key)[d] == DeleteSlot(slots[g], expected, mode))
        && (HasGreen(statuses) <==> slots[g].Present? || forall d :: Reachable(old(statuses), d) ==> slots[d].Absent?)
        && (HasGreen(statuses) ==> Reference() == g && DeleteLeaves(old(statuses), g, slots, SlotsOf(drives, key)))
      ensures UniformlyPresent(old(statuses), old(Reference()), SlotsOf(old(drives), key)) ==> statuses == old(statuses)
      ensures HasGreen(statuses) && old(Consistent()) ==> Consistent()
      ensures forall d :: 0 <= d < |statuses| ==> statuses[d] == old(statuses)[d] || statuses[d].Red?
      ensures HasGreen(statuses) ==> forall d: nat :: d < |drives| && old(LogCovers(d)) ==> LogCovers(d)
    {
      ghost var g, slots := Reference(), SlotsOf(drives, key);
      ghost var hasLog := HasLog(log, statuses, available);
      var op: Operation<V> := DeleteOp(expected, mode);
      DeleteExact(statuses, g, slots, op, hasLog);
      EvaluatedColours(statuses, Replies(statuses, slots, op, {}), hasLog);
      status := Write(key, op, {}, available);
      if HasGreen(statuses) {
        forall k | old(Consistent()) && Data(home, k) ensures GreensAgree(statuses, g, SlotsOf(drives, k)) {
          assert old(GreensAgree(statuses, g, SlotsOf(drives, k)));
          if k != key { assert SlotsOf(drives, k) == SlotsOf(old(drives), k); }
        }
        forall d: nat | d < |drives| && old(LogCovers(d)) ensures LogCovers(d) {
          DeleteCovers(home, old(drives), g, old(log).value, drives, log.value, old(statuses), d, key);
        }
      }
    }

    /** Publishes the partition under its cluster version, drive by drive; the first refusal ends it, and the drives
      before it keep the publication. */
    method PutPartitionUpdate(publication: V) returns (ok: bool)
      requires Valid()
      modifies `drives
      ensures |drives| == |old(drives)|
      ensures SameExcept(old(drives), drives, PublicationKey(clusterVersion))
      ensures
        var key := PublicationKey(clusterVersion);
        var end := FirstRefusal(statuses, SlotsOf(old(drives), key), 0);
        && (ok <==> end == |statuses|)
        && SlotsOf(drives, key) == Published(statuses, SlotsOf(old(drives), key), Record("yes", publication), end)
      ensures ok <==> Unpublished(statuses, SlotsOf(old(drives), PublicationKey(clusterVersion)))
      ensures ok ==> PublishedOnAll(statuses, SlotsOf(drives, PublicationKey(clusterVersion)), publication)
    {
      var key := PublicationKey(clusterVersion);
      var record := Record("yes", publication);
      ghost var before := SlotsOf(drives, key);
      for d := 0 to |drives|
        invariant |drives| == |old(drives)| == |statuses| == |before|
        invariant forall i :: 0 <= i < |drives| ==>
          SlotsOf(drives, key)[i] == if i < d && !statuses[i].Red? then Present(record) else before[i]
        invariant FirstRefusal(statuses, before, 0) == FirstRefusal(statuses, before, d)
        invariant SameExcept(old(drives), drives, key)
      {
        if !statuses[d].Red? {
          var s := SlotOf(drives[d], key);
          assert s == SlotsOf(drives, key)[d];
          if PutStatus(s, "", RequireSameVersion) != Ok {
            PublicationExact(statuses, before, publication);
            return false;
          }
          SetSlot(d, key, PutSlot(s, "", RequireSameVersion, record));
        }
      }
      PublicationExact(statuses, before, publication);
      ok := true;
    }

    /** disableDrive: the drive turns RED under a new cluster version. What drives miss stays in the log; the
      publication itself, which the failed drive misses too, is no record of the partition. */
    method DisableDrive(index: nat, available: bool, publication: V) returns (ok: bool)
      requires Valid() && index < |drives| && Consistent()
      modifies this
      ensures old(statuses)[index].Red? ==> ok && unchanged(this)
      ensures !old(statuses)[index].Red? ==>
        && statuses == old(statuses)[index := Red] && clusterVersion == old(clusterVersion) + 1
        && log == LogAfter(old(log), old(statuses), statuses, available)
        && SameExcept(old(drives), drives, PublicationKey(clusterVersion))
        && var key := PublicationKey(clusterVersion);
        && (ok <==> TestPartition(statuses, log.Some?) && Unpublished(statuses, SlotsOf(old(drives), key)))
        && (ok ==> PublishedOnAll(statuses, SlotsOf(drives, key), publication))
      ensures ok ==> Valid() && Consistent()
      ensures ok && log.Some? ==> forall d: nat :: d < |drives| && old(Tracked(d)) ==> LogCovers(d)
    {
      if statuses[index].Red? { return true; }
      ghost var g := Reference();
      SetRed(index, available);
      clusterVersion := clusterVersion + 1;
      SomeGreenExactly(statuses);
      if !TestPartition(statuses, log.Some?) { return false; }
      ok := PutPartitionUpdate(publication);
      ghost var key, h := PublicationKey(clusterVersion), Reference();
      PublicationApart(clusterVersion);
      OtherGreen(home, old(drives), old(statuses), g, drives, statuses, h, key);
      forall d: nat | d < |drives| && old(Tracked(d)) && log.Some? ensures LogCovers(d) {
        StillCovered(home, old(drives), g, if old(log).Some? then old(log).value else {}, drives, h, log.value, d, key);
      }
    }

    /** enableDrive: a RED drive is written again, but not read yet. */
    method EnableDrive(index: nat, publication: V) returns (ok: bool)
      requires Valid() && index < |drives| && Consistent()
      modifies this
      ensures Valid() && Consistent() && log == old(log) && |drives| == |old(drives)|
      ensures statuses == if ok && old(statuses)[index].Red? then old(statuses)[index := Yellow] else old(statuses)
      ensures clusterVersion == if ok && old(statuses)[index].Red? then old(clusterVersion) + 1 else old(clusterVersion)
      ensures
        var key := PublicationKey(old(clusterVersion) + 1);
        if !old(statuses)[index].Red? then ok && drives == old(drives)
        else
          var joined := old(statuses)[index := Yellow];
          && (ok <==> TestPartition(joined, log.Some?) && Unpublished(joined, SlotsOf(old(drives), key)))
          && (ok ==> PublishedOnAll(joined, SlotsOf(drives, key), publication))
      ensures forall d: nat :: d < |drives| && old(Tracked(d)) ==> Tracked(d)
      ensures exists v :: SameExcept(old(drives), drives, PublicationKey(v))
    {
      assert SameExcept(old(drives), drives, PublicationKey(0));
      if !statuses[index].Red? { return true; }
      ghost var g := Reference();
      statuses := statuses[index := Yellow];
      clusterVersion := clusterVersion + 1;
      assert IsFirstGreen(statuses, g);
      ok := false;
      ghost var key := PublicationKey(clusterVersion);
      PublicationApart(clusterVersion);
      if TestPartition(statuses, log.Some?) {
        ok := PutPartitionUpdate(publication);
      }
      if !ok {
        statuses := statuses[index := Red];
        clusterVersion := clusterVersion - 1;
        assert statuses == old(statuses);
      }
      assert IsFirstGreen(statuses, g);
      assert SameExcept(old(drives), drives, key);
      forall k | Data(home, k) ensures GreensAgree(statuses, g, SlotsOf(drives, k)) {
        assert old(GreensAgree(statuses, g, SlotsOf(drives, k)));
        assert SlotsOf(drives, k) == SlotsOf(old(drives), k);
      }
      forall d: nat | d < |drives| && old(Tracked(d)) ensures Tracked(d) {
        ghost var noted := if log.Some? then log.value else {};
        StillCovered(home, old(drives), g, noted, drives, g, noted, d, key);
      }
    }

    // -------------------------------------------------------------------------------------------
    // Rebuilding a drive
    // -------------------------------------------------------------------------------------------

    /** The keys a rebuild looks at: those on the log drive, or else those of a GREEN drive. */
    function Source(pick: nat): set<Key>
      requires pick < |drives|
      reads `drives, `log
    {
      if log.Some? then log.value else drives[pick].Keys
    }

    /** Read repair of one key during a rebuild. It happens in the partition the key belongs to. */
    method RepairOne(index: nat, pick: nat, key: Key)
      requires Valid() && Consistent() && index < |drives| && Reachable(statuses, index) && pick < |drives|
      modifies `drives
      ensures Valid() && Consistent() && |drives| == |old(drives)| && SameExcept(old(drives), drives, key)
      ensures forall k :: Differs(index, k) <==> old(Differs(index, k)) && !(k == key && home(k))
      ensures forall k :: old(Identified(k)) ==> Identified(k)
    {
      if !home(key) { return; }
      ghost var g := Reference();
      ghost var before := SlotsOf(drives, key);
      var _ := ReadRepair(key);
      RepairMakesEqual(statuses, g, before);
      forall k | Data(home, k) ensures GreensAgree(statuses, g, SlotsOf(drives, k)) {
        assert old(GreensAgree(statuses, g, SlotsOf(drives, k)));
        if k != key { assert SlotsOf(drives, k) == SlotsOf(old(drives), k); }
      }
      forall k | k != key ensures SlotsOf(drives, k) == SlotsOf(old(drives), k) {}
    }

    /** Repairs one page of keys and, when every drive is being written again, forgets them in the log. */
    method RepairPage(index: nat, pick: nat, keys: seq<Key>, forget: bool)
      requires Valid() && Consistent() && index < |drives| && Reachable(statuses, index) && pick < |drives|
      modifies `drives, `log
      ensures Valid() && Consistent() && |drives| == |old(drives)| && log.Some? == old(log.Some?)
      ensures forall k :: Differs(index, k) <==> old(Differs(index, k)) && !(k in keys && home(k))
      ensures RepairedSource(old(Source(pick)), Source(pick), keys)
      ensures forall k :: old(Identified(k)) ==> Identified(k)
    {
      for i := 0 to |keys|
        invariant Valid() && Consistent() && |drives| == |old(drives)| && log.Some? == old(log.Some?)
        invariant forall k :: Differs(index, k) <==> old(Differs(index, k)) && !(k in keys[..i] && home(k))
        invariant RepairedSource(old(Source(pick)), Source(pick), keys[..i])
        invariant forall k :: old(Identified(k)) ==> Identified(k)
      {
        ghost var before := drives;
        RepairOne(index, pick, keys[i]);
        KeysExcept(before, drives, keys[i], pick);
        assert keys[..i + 1] == keys[..i] + [keys[i]];
        if log.Some? && forget {
          log := Some(log.value - {keys[i]});
        }
      }
      assert keys[..|keys|] == keys;
    }

    /** The paged scan ends, and repairs exactly the keys of the partition that are in the source and in the range. */
    method Scan(index: nat, pick: nat)
      requires Valid() && Consistent() && index < |drives| && Reachable(statuses, index) && pick < |drives|
      modifies `drives, `log
      ensures Valid() && Consistent() && |drives| == |old(drives)|
      ensures forall k :: Differs(index, k) <==> old(Differs(index, k)) && !(home(k) && Scanned(old(Source(pick)), k))
      ensures forall k :: old(Identified(k)) ==> Identified(k)
    {
      var forget := forall d :: 0 <= d < |statuses| ==> !statuses[d].Red?;
      var start := SCAN_START;
      ghost var all := Source(pick);
      var keys := Page(Source(pick), start, true, SCAN_END, true, PAGE_SIZE);
      FullPageAdvances(all, start);
      RepairPage(index, pick, keys, forget);
      FirstScanPage(all, Source(pick), keys);
      ghost var seen := set k | k in keys;
      while |keys| == PAGE_SIZE
        invariant Valid() && Consistent() && |drives| == |old(drives)|
        invariant ScanState(all, Source(pick), seen, keys)
        invariant |keys| == PAGE_SIZE ==> Less(start, keys[PAGE_SIZE - 1])
        invariant forall k :: Differs(index, k) <==> old(Differs(index, k)) && !(home(k) && k in seen)
        invariant forall k :: old(Identified(k)) ==> Identified(k)
        decreases Ahead(all, start)
      {
        ghost var source := Source(pick);
        assert keys[PAGE_SIZE - 1] in keys;
        AheadShrinks(all, start, keys[PAGE_SIZE - 1]);
        start := keys[PAGE_SIZE - 1];
        var next := Page(Source(pick), start, true, SCAN_END, true, PAGE_SIZE);
        FullPageAdvances(source, start);
        RepairPage(index, pick, next, forget);
        NextScanPage(all, source, seen, keys, Source(pick), next);
        seen := seen + (set k | k in next);
        keys := next;
      }
    }

    /** The rebuilt drive joins the read quorum under a new cluster version. The GREEN drives then have one version of
      exactly those records on which the drive was not behind. If the publication is refused, a log drive that was given
      up stays so. */
    method Promote(index: nat, publication: V) returns (ok: bool)
      requires Valid() && Consistent() && index < |drives| && statuses[index].Yellow?
      modifies this
      ensures !ok ==> statuses == old(statuses) && clusterVersion == old(clusterVersion)
      ensures ok ==> statuses == old(statuses)[index := Green] && clusterVersion == old(clusterVersion) + 1 && Valid()
      ensures log == if AllGreen(old(statuses)[index := Green]) then None else old(log)
      ensures
        var key, promoted := PublicationKey(old(clusterVersion) + 1), old(statuses)[index := Green];
        && |drives| == |promoted| && (ok <==> Unpublished(promoted, SlotsOf(old(drives), key)))
        && (ok ==> PublishedOnAll(promoted, SlotsOf(drives, key), publication))
      ensures ok ==> forall key :: Data(home, key) ==> Agreement(key, !old(Differs(index, key)), old(Identified(key)))
    {
      ghost var g := Reference();
      ok := TurnGreen(index, publication);
      if ok {
        PublicationApart(clusterVersion);
        forall key | Data(home, key) ensures Agreement(key, !old(Differs(index, key)), old(Identified(key))) {
          assert SlotsOf(drives, key) == SlotsOf(old(drives), key);
          assert old(GreensAgree(statuses, g, SlotsOf(drives, key)));
          PromotedAgree(old(statuses), g, index, Reference(), SlotsOf(drives, key));
        }
      }
    }

    /** The change of colour and its publication. */
    method TurnGreen(index: nat, publication: V) returns (ok: bool)
      requires Valid() && index < |drives| && statuses[index].Yellow?
      modifies this
      ensures !ok ==> statuses == old(statuses) && clusterVersion == old(clusterVersion)
      ensures ok ==> statuses == old(statuses)[index := Green] && clusterVersion == old(clusterVersion) + 1 && Valid()
      ensures log == if AllGreen(old(statuses)[index := Green]) then None else old(log)
      ensures
        var key, promoted := PublicationKey(old(clusterVersion) + 1), old(statuses)[index := Green];
        && SameExcept(old(drives), drives, key) && |drives| == |promoted|
        && (ok <==> Unpublished(promoted, SlotsOf(old(drives), key)))
        && (ok ==> PublishedOnAll(promoted, SlotsOf(drives, key), publication))
    {
      MoreGreen(statuses, index);
      statuses := statuses[index := Green];
      clusterVersion := clusterVersion + 1;
      if log.Some? && AllGreen(statuses) { log := None; }
      ok := PutPartitionUpdate(publication);
      if !ok {
        statuses := statuses[index := Yellow];
        clusterVersion := clusterVersion - 1;
        assert statuses == old(statuses);
      }
    }

    /** The GREEN drives have one version of the key exactly if `same`, and then one record if `identified`. */
    ghost predicate Agreement(key: Key, same: bool, identified: bool)
      requires Valid()
      reads this
    {
      && (GreenVersionsAgree(statuses, Reference(), SlotsOf(drives, key)) <==> same)
      && (same && identified ==> GreensAgree(statuses, Reference(), SlotsOf(drives, key)))
    }

    /** With no other writers, a rebuild that succeeds leaves the GREEN drives, the promoted one included, with one
      version of a record exactly if the drive was not behind on it or the record is in the source and range that are
      scanned, although repaired keys leave the log during the scan. */
    method SynchronizeDrive(index: nat, pick: nat, publication: V) returns (ok: bool)
      requires Valid() && Consistent() && index < |drives| && pick < |drives|
      modifies this
      ensures !old(statuses)[index].Yellow? ==> !ok && unchanged(this)
      ensures !ok ==> statuses == old(statuses) && clusterVersion == old(clusterVersion)
      ensures ok ==> statuses == old(statuses)[index := Green] && clusterVersion == old(clusterVersion) + 1 && Valid()
      ensures ok ==> PublishedOnAll(statuses, SlotsOf(drives, PublicationKey(clusterVersion)), publication)
      ensures ok ==> forall key :: Data(home, key) ==>
        Agreement(key, old(!Differs(index, key) || Scanned(Source(pick), key)), old(Identified(key)))
    {
      if !statuses[index].Yellow? { return false; }
      Scan(index, pick);
      label Scanned:
      ok := Promote(index, publication);
      forall key | ok && Data(home, key)
        ensures Agreement(key, old(!Differs(index, key) || Scanned(Source(pick), key)), old(Identified(key)))
      {
        assert Agreement(key, !old@Scanned(Differs(index, key)), old@Scanned(Identified(key)));
      }
    }
  }
}
