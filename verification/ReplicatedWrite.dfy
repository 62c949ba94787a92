/** A replicated write run without interference, on the slots that the drives of one partition hold for
  one key: send it to every reachable drive, evaluate the answers, repair a partial write.
 */
module ReplicatedWrite {
  import opened KineticStore
  import opened Replication

  datatype Operation<V> =
    | PutOp(expected: Version, mode: WriteMode, record: Record<V>)
    | DeleteOp(expected: Version, mode: WriteMode)
  {
    function StatusOn(s: Slot<V>): Status {
      match this
      case PutOp(v, m, _) => PutStatus(s, v, m)
      case DeleteOp(v, m) => DeleteStatus(s, v, m)
    }

    function SlotOn(s: Slot<V>): Slot<V> {
      match this
      case PutOp(v, m, rec) => PutSlot(s, v, m, rec)
      case DeleteOp(v, m) => DeleteSlot(s, v, m)
    }

    /** What the caller concludes from the reference slot after a repair. */
    function StatusAfterRepair(reference: Slot<V>): Status {
      match this
      case PutOp(_, _, rec) => if reference.Present? && rec.version == reference.Version() then Ok else VersionMismatch
      case DeleteOp(_, _) => if reference.Present? then VersionMismatch else Ok
    }
  }

  /** FailDrive(d): drive d answered with an error and has to leave the partition before a retry. */
  datatype Outcome = Agreed(status: Status) | FailDrive(drive: nat) | PartialWrite

  predicate Unexpected(s: Status) {
    !s.Ok? && !s.VersionMismatch?
  }

  predicate Reachable(statuses: seq<DriveStatus>, d: int) {
    0 <= d < |statuses| && !statuses[d].Red?
  }

  function Written<V>(statuses: seq<DriveStatus>, slots: seq<Slot<V>>, op: Operation<V>): (r: seq<Slot<V>>)
    requires |statuses| == |slots|
  {
    seq(|slots|, d requires 0 <= d < |slots| => if statuses[d].Red? then slots[d] else op.SlotOn(slots[d]))
  }

  function Answers<V>(statuses: seq<DriveStatus>, slots: seq<Slot<V>>, op: Operation<V>): seq<Status>
    requires |statuses| == |slots|
  {
    seq(|slots|, d requires 0 <= d < |slots| => if statuses[d].Red? then Unreachable else op.StatusOn(slots[d]))
  }

  predicate AllEqual(statuses: seq<DriveStatus>, g: nat, answers: seq<Status>)
    requires g < |statuses| == |answers|
  {
    forall d :: 0 <= d < |statuses| && !statuses[d].Red? ==> answers[d] == answers[g]
  }

  /** The first reachable drive at or after d whose answer is an error, or the number of drives. */
  function FirstUnexpected(statuses: seq<DriveStatus>, answers: seq<Status>, d: nat): (r: nat)
    requires |statuses| == |answers| && d <= |statuses|
    ensures d <= r <= |statuses|
    ensures r < |statuses| ==> Reachable(statuses, r) && Unexpected(answers[r])
    ensures forall i :: d <= i < r && Reachable(statuses, i) ==> !Unexpected(answers[i])
    decreases |statuses| - d
  {
    if d == |statuses| then d
    else if !statuses[d].Red? && Unexpected(answers[d]) then d
    else FirstUnexpected(statuses, answers, d + 1)
  }

  function Evaluate(statuses: seq<DriveStatus>, g: nat, answers: seq<Status>): Outcome
    requires g < |statuses| == |answers|
  {
    if AllEqual(statuses, g, answers) then Agreed(answers[g])
    else
      var bad := FirstUnexpected(statuses, answers, 0);
      if bad < |statuses| then FailDrive(bad) else PartialWrite
  }

  function Repaired<V>(statuses: seq<DriveStatus>, g: nat, slots: seq<Slot<V>>): seq<Slot<V>>
    requires g < |statuses| == |slots|
  {
    seq(|slots|, d requires 0 <= d < |slots| => if statuses[d].Red? then slots[d]
      else RepairSlot(slots[g], slots[d], slots[d]))
  }

  /** The replicated operation: new slots and what the caller is told. */
  function Replicated<V>(
      statuses: seq<DriveStatus>, g: nat, slots: seq<Slot<V>>, op: Operation<V>): (r: (seq<Slot<V>>, Outcome))
    requires g < |statuses| == |slots|
    ensures |r.0| == |slots|
  {
    var written := Written(statuses, slots, op);
    var outcome := Evaluate(statuses, g, Answers(statuses, slots, op));
    if outcome.PartialWrite? then
      (Repaired(statuses, g, written), Agreed(op.StatusAfterRepair(written[g])))
    else (written, outcome)
  }

  // ---------------------------------------------------------------------------------------------
  // Compared with one drive
  // ---------------------------------------------------------------------------------------------

  ghost predicate GreensAgree<V(!new)>(statuses: seq<DriveStatus>, g: nat, slots: seq<Slot<V>>)
    requires |statuses| == |slots|
  {
    g < |slots| && forall d :: 0 <= d < |statuses| && statuses[d].Green? ==> slots[d] == slots[g]
  }

  ghost predicate AllAgree<V(!new)>(statuses: seq<DriveStatus>, g: nat, slots: seq<Slot<V>>)
    requires |statuses| == |slots|
  {
    g < |slots| && forall d :: Reachable(statuses, d) ==> slots[d] == slots[g]
  }

  /** Versions are unique: a reachable drive with the reference version has the reference record. */
  ghost predicate Traceable<V(!new)>(statuses: seq<DriveStatus>, g: nat, slots: seq<Slot<V>>)
    requires |statuses| == |slots|
  {
    g < |slots| &&
    forall d :: Reachable(statuses, d) && slots[d].Present? && slots[g].Present? ==>
      slots[d].Version() == slots[g].Version() ==> slots[d] == slots[g]
  }

  ghost predicate FreshVersion<V(!new)>(statuses: seq<DriveStatus>, slots: seq<Slot<V>>, v: Version)
    requires |statuses| == |slots|
  {
    forall d :: Reachable(statuses, d) ==> slots[d].Version() != v
  }

  /** Presence and version agree; only these are compared by a repair. */
  predicate SameVersion<V>(a: Slot<V>, b: Slot<V>) {
    a.Present? == b.Present? && a.Version() == b.Version()
  }

  /** A repair brings every reachable drive to the reference's version, and all of them to the reference's record
    exactly when versions identify records. */
  lemma {:induction false} RepairMakesEqual<V(!new)>(statuses: seq<DriveStatus>, g: nat, slots: seq<Slot<V>>)
    requires |statuses| == |slots| && IsFirstGreen(statuses, g)
    ensures forall d :: Reachable(statuses, d) ==> SameVersion(Repaired(statuses, g, slots)[d], slots[g])
    ensures AllAgree(statuses, g, Repaired(statuses, g, slots)) <==> Traceable(statuses, g, slots)
    ensures Repaired(statuses, g, slots)[g] == slots[g]
  {
    var after := Repaired(statuses, g, slots);
    assert Reachable(statuses, g);
    if AllAgree(statuses, g, after) {
      forall d | Reachable(statuses, d) && slots[d].Present? && slots[g].Present?
        && slots[d].Version() == slots[g].Version()
        ensures slots[d] == slots[g]
      {
        assert after[d] == slots[d];
      }
    }
  }

  /** A replicated put answers and leaves the GREEN drives exactly as one compare-and-set drive would, and
      it leaves all reachable drives equal exactly when they were equal already or some drive took the write. */
  lemma {:induction false} PutRefinesSingleDrive<V(!new)>(
      statuses: seq<DriveStatus>, g: nat, slots: seq<Slot<V>>, op: Operation<V>)
    requires op.PutOp? && |statuses| == |slots| && IsFirstGreen(statuses, g)
    requires GreensAgree(statuses, g, slots) && Traceable(statuses, g, slots)
    requires op.mode.RequireSameVersion? ==> FreshVersion(statuses, slots, op.record.version)
    ensures
      var (after, outcome) := Replicated(statuses, g, slots, op);
      && outcome == Agreed(op.StatusOn(slots[g]))
      && (forall d :: 0 <= d < |statuses| && statuses[d].Green? ==> after[d] == op.SlotOn(slots[g]))
      && (AllAgree(statuses, g, after) <==>
          AllAgree(statuses, g, slots) || exists d :: Reachable(statuses, d) && op.StatusOn(slots[d]).Ok?)
      && (AllAgree(statuses, g, after) || after == slots)
  {
    var written := Written(statuses, slots, op);
    var answers := Answers(statuses, slots, op);
    var (after, outcome) := Replicated(statuses, g, slots, op);
    assert Reachable(statuses, g);
    if AllEqual(statuses, g, answers) {
      forall d | Reachable(statuses, d) ensures op.StatusOn(slots[d]) == op.StatusOn(slots[g]) {
        assert answers[d] == answers[g];
      }
      if op.StatusOn(slots[g]).Ok? {
        assert AllAgree(statuses, g, after);
      } else {
        assert after == slots;
      }
    } else {
      assert forall d :: Reachable(statuses, d) ==> !Unexpected(answers[d]);
      assert exists d :: Reachable(statuses, d) && op.StatusOn(slots[d]).Ok? by {
        var d :| 0 <= d < |statuses| && !statuses[d].Red? && answers[d] != answers[g];
        assert Reachable(statuses, d);
      }
      assert Traceable(statuses, g, written);
      RepairMakesEqual(statuses, g, written);
      assert forall d :: 0 <= d < |statuses| && statuses[d].Green? ==> Reachable(statuses, d);
    }
  }

  ghost predicate UniformlyPresent<V(!new)>(statuses: seq<DriveStatus>, g: nat, slots: seq<Slot<V>>)
    requires |statuses| == |slots|
  {
    g < |slots| && forall d :: Reachable(statuses, d) ==> slots[d].Present? == slots[g].Present?
  }

  /** A replicated delete refines one drive's delete exactly when the key is on all reachable drives or on
      none; otherwise a drive that lacks the key is to be failed. */
  lemma {:induction false} DeleteRefinesSingleDrive<V(!new)>(
      statuses: seq<DriveStatus>, g: nat, slots: seq<Slot<V>>, op: Operation<V>)
    requires op.DeleteOp? && |statuses| == |slots| && IsFirstGreen(statuses, g)
    requires GreensAgree(statuses, g, slots) && Traceable(statuses, g, slots)
    ensures
      var (after, outcome) := Replicated(statuses, g, slots, op);
      && (outcome.Agreed? <==> UniformlyPresent(statuses, g, slots))
      && (outcome.Agreed? ==>
            && outcome.status == op.StatusOn(slots[g])
            && (forall d :: 0 <= d < |statuses| && statuses[d].Green? ==> after[d] == op.SlotOn(slots[g]))
            && (AllAgree(statuses, g, after) <==>
                AllAgree(statuses, g, slots) || exists d :: Reachable(statuses, d) && op.StatusOn(slots[d]).Ok?)
            && (AllAgree(statuses, g, after) || after == slots))
      && (!outcome.Agreed? ==> outcome.FailDrive? && outcome.drive < |slots| && slots[outcome.drive].Absent?)
  {
    var written := Written(statuses, slots, op);
    var answers := Answers(statuses, slots, op);
    var (after, outcome) := Replicated(statuses, g, slots, op);
    assert Reachable(statuses, g);
    if AllEqual(statuses, g, answers) {
      forall d | Reachable(statuses, d) ensures op.StatusOn(slots[d]) == op.StatusOn(slots[g]) {
        assert answers[d] == answers[g];
      }
      if !op.StatusOn(slots[g]).Ok? {
        assert after == slots;
      }
    } else {
      var d :| 0 <= d < |statuses| && !statuses[d].Red? && answers[d] != answers[g];
      assert Reachable(statuses, d);
      if UniformlyPresent(statuses, g, slots) {
        assert forall i :: Reachable(statuses, i) ==> slots[i].Present?;
        assert forall i :: Reachable(statuses, i) ==> !Unexpected(answers[i]);
        assert Traceable(statuses, g, written);
        RepairMakesEqual(statuses, g, written);
        assert forall i :: 0 <= i < |statuses| && statuses[i].Green? ==> Reachable(statuses, i);
      } else {
        var i :| Reachable(statuses, i) && slots[i].Present? != slots[g].Present?;
        assert Unexpected(answers[if slots[i].Absent? then i else g]);
      }
    }
  }
}
