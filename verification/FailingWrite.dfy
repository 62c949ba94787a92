/** A replicated write with everything that follows an unexpected answer: the drive that gave it is failed, if the
  partition can do without it, and the answers of the others are evaluated again.
 */
module FailingWrite {
  import opened KineticStore
  import opened Replication
  import opened ReplicatedWrite

  // ---------------------------------------------------------------------------------------------
  // When a partition can do without a drive
  // ---------------------------------------------------------------------------------------------

  function Live(statuses: seq<DriveStatus>): set<int> {
    set d | 0 <= d < |statuses| && !statuses[d].Red?
  }

  predicate SomeGreen(statuses: seq<DriveStatus>) {
    exists d :: 0 <= d < |statuses| && statuses[d].Green?
  }

  /** There is a GREEN drive to read from, and one drive alone is not trusted to notice a network split: a second one or
    the log drive has to be reachable, too. */
  predicate TestPartition(statuses: seq<DriveStatus>, hasLog: bool) {
    SomeGreen(statuses) && (|Live(statuses)| != 1 || |statuses| <= 1 || hasLog)
  }

  lemma {:induction false} FirstOfGreens(statuses: seq<DriveStatus>, d: nat)
    requires d < |statuses| && statuses[d].Green?
    ensures HasGreen(statuses)
    decreases d
  {
    if e: nat :| e < d && statuses[e].Green? {
      FirstOfGreens(statuses, e);
    } else {
      assert IsFirstGreen(statuses, d);
    }
  }

  lemma {:induction false} SomeGreenExactly(statuses: seq<DriveStatus>)
    ensures SomeGreen(statuses) <==> HasGreen(statuses)
  {
    if SomeGreen(statuses) {
      var d: nat :| d < |statuses| && statuses[d].Green?;
      FirstOfGreens(statuses, d);
    }
  }

  lemma {:induction false} FailingShrinks(statuses: seq<DriveStatus>, d: nat)
    requires Reachable(statuses, d)
    ensures |Live(statuses[d := Red])| < |Live(statuses)|
  {
    assert Live(statuses[d := Red]) == Live(statuses) - {d};
  }

  // ---------------------------------------------------------------------------------------------
  // Evaluating again and again
  // ---------------------------------------------------------------------------------------------

  /** A drive with an unexpected answer turns RED. If the partition lives on, the answers are evaluated again; if not,
    its answer is the result, and it stays RED all the same. */
  ghost function Evaluated(
      statuses: seq<DriveStatus>, answers: seq<Status>, hasLog: bool): (r: (seq<DriveStatus>, Outcome))
    requires |statuses| == |answers| && HasGreen(statuses)
    ensures |r.0| == |statuses| && !r.1.FailDrive? && (r.1.PartialWrite? ==> HasGreen(r.0))
    decreases |Live(statuses)|
  {
    match Evaluate(statuses, FirstGreen(statuses), answers)
    case FailDrive(d) =>
      FailingShrinks(statuses, d);
      var next := statuses[d := Red];
      SomeGreenExactly(next);
      if TestPartition(next, hasLog) then Evaluated(next, answers, hasLog) else (next, Agreed(answers[d]))
    case Agreed(status) => (statuses, Agreed(status))
    case PartialWrite => (statuses, PartialWrite)
  }

  /** The colours with every drive RED that gave an unexpected answer. */
  function Without(statuses: seq<DriveStatus>, answers: seq<Status>): (r: seq<DriveStatus>)
    requires |statuses| == |answers|
    ensures |r| == |statuses|
  {
    seq(|statuses|, d requires 0 <= d < |statuses| => if Unexpected(answers[d]) then Red else statuses[d])
  }

  predicate AnyUnexpected(statuses: seq<DriveStatus>, answers: seq<Status>)
    requires |statuses| == |answers|
  {
    exists d :: 0 <= d < |statuses| && !statuses[d].Red? && Unexpected(answers[d])
  }

  lemma {:induction false} WithoutNext(statuses: seq<DriveStatus>, answers: seq<Status>, d: nat)
    requires |statuses| == |answers| && d < |statuses| && Unexpected(answers[d])
    ensures Without(statuses[d := Red], answers) == Without(statuses, answers)
  {}

  lemma {:induction false} WithoutNone(statuses: seq<DriveStatus>, answers: seq<Status>)
    requires |statuses| == |answers| && !AnyUnexpected(statuses, answers)
    ensures Without(statuses, answers) == statuses
  {}

  lemma {:induction false} FirstIsUnexpected(statuses: seq<DriveStatus>, answers: seq<Status>)
    requires |statuses| == |answers|
    ensures FirstUnexpected(statuses, answers, 0) < |statuses| <==> AnyUnexpected(statuses, answers)
  {
    var bad := FirstUnexpected(statuses, answers, 0);
    if bad < |statuses| { assert !statuses[bad].Red? && Unexpected(answers[bad]); }
    if AnyUnexpected(statuses, answers) {
      var d :| 0 <= d < |statuses| && !statuses[d].Red? && Unexpected(answers[d]);
      assert Reachable(statuses, d);
    }
  }

  /** A partition with more drives of the same colours passes the test if one with fewer does. */
  lemma {:induction false} TestMonotone(left: seq<DriveStatus>, statuses: seq<DriveStatus>, hasLog: bool)
    requires |left| == |statuses| && forall d :: 0 <= d < |left| ==> left[d].Red? || left[d] == statuses[d]
    requires TestPartition(left, hasLog)
    ensures TestPartition(statuses, hasLog)
  {
    var d :| 0 <= d < |left| && left[d].Green?;
    assert statuses[d].Green?;
    assert d in Live(left) && Live(left) <= Live(statuses);
    assert Live(statuses) == Live(left) + (Live(statuses) - Live(left));
    assert |Live(statuses)| == |Live(left)| + |Live(statuses) - Live(left)|;
  }

  /** If the partition can do without all drives with unexpected answers, exactly these are failed and the rest is
    evaluated. */
  lemma {:induction false} UnexpectedFail(statuses: seq<DriveStatus>, answers: seq<Status>, hasLog: bool)
    requires |statuses| == |answers| && HasGreen(statuses) && TestPartition(Without(statuses, answers), hasLog)
    ensures
      var left := Without(statuses, answers);
      HasGreen(left) && Evaluated(statuses, answers, hasLog) == (left, Evaluate(left, FirstGreen(left), answers))
    decreases |Live(statuses)|
  {
    var left, g := Without(statuses, answers), FirstGreen(statuses);
    SomeGreenExactly(left);
    FirstIsUnexpected(statuses, answers);
    if AnyUnexpected(statuses, answers) {
      var bad := FirstUnexpected(statuses, answers, 0);
      var next := statuses[bad := Red];
      NotAllEqual(statuses, answers, bad);
      FailingShrinks(statuses, bad);
      WithoutNext(statuses, answers, bad);
      TestMonotone(left, next, hasLog);
      SomeGreenExactly(next);
      UnexpectedFail(next, answers, hasLog);
    } else {
      WithoutNone(statuses, answers);
    }
  }

  /** With an unexpected answer and a GREEN drive without one, the answers are not all equal. */
  lemma {:induction false} NotAllEqual(statuses: seq<DriveStatus>, answers: seq<Status>, bad: nat)
    requires |statuses| == |answers| && HasGreen(statuses) && SomeGreen(Without(statuses, answers))
    requires Reachable(statuses, bad) && Unexpected(answers[bad])
    ensures !AllEqual(statuses, FirstGreen(statuses), answers)
  {
    var d :| 0 <= d < |statuses| && Without(statuses, answers)[d].Green?;
    assert Reachable(statuses, d);
  }

  /** If the partition cannot do without them, the result is one of the unexpected answers. */
  lemma {:induction false} UnexpectedStays(statuses: seq<DriveStatus>, answers: seq<Status>, hasLog: bool)
    requires |statuses| == |answers| && HasGreen(statuses) && AnyUnexpected(statuses, answers)
    requires !TestPartition(Without(statuses, answers), hasLog)
    ensures
      var outcome := Evaluated(statuses, answers, hasLog).1;
      outcome.Agreed? && Unexpected(outcome.status)
      && exists d :: Reachable(statuses, d) && outcome.status == answers[d]
    decreases |Live(statuses)|
  {
    var g, bad := FirstGreen(statuses), FirstUnexpected(statuses, answers, 0);
    FirstIsUnexpected(statuses, answers);
    assert Reachable(statuses, g) && Reachable(statuses, bad);
    if !AllEqual(statuses, g, answers) {
      var next := statuses[bad := Red];
      FailingShrinks(statuses, bad);
      WithoutNext(statuses, answers, bad);
      SomeGreenExactly(next);
      if TestPartition(next, hasLog) {
        if !AnyUnexpected(next, answers) { WithoutNone(next, answers); }
        UnexpectedStays(next, answers, hasLog);
        assert forall d :: Reachable(next, d) ==> Reachable(statuses, d);
      }
    } else {
      assert answers[bad] == answers[g];
    }
  }

  lemma {:induction false} TwoLive(statuses: seq<DriveStatus>, d: nat, e: nat)
    requires Reachable(statuses, d) && Reachable(statuses, e) && d != e
    ensures |Live(statuses)| >= 2
  {
    assert {d, e} <= Live(statuses);
    assert Live(statuses) == {d, e} + (Live(statuses) - {d, e});
  }

  lemma {:induction false} NoGreenIfOneLive(statuses: seq<DriveStatus>, y: nat)
    requires Reachable(statuses, y) && !statuses[y].Green? && (!SomeGreen(statuses) || |Live(statuses)| == 1)
    ensures !SomeGreen(statuses)
  {
    forall d: nat | d < |statuses| ensures !statuses[d].Green? {
      if statuses[d].Green? { TwoLive(statuses, d, y); }
    }
  }

  /** If the GREEN drives are the ones with an unexpected answer and some other drive is not, all of them are failed. */
  lemma {:induction false} GreensFail(statuses: seq<DriveStatus>, answers: seq<Status>, hasLog: bool, y: nat)
    requires |statuses| == |answers| && HasGreen(statuses)
    requires forall d :: 0 <= d < |statuses| && statuses[d].Green? ==> Unexpected(answers[d])
    requires Reachable(statuses, y) && !Unexpected(answers[y])
    ensures !HasGreen(Evaluated(statuses, answers, hasLog).0)
    decreases |Live(statuses)|
  {
    var g, bad := FirstGreen(statuses), FirstUnexpected(statuses, answers, 0);
    assert answers[y] != answers[g] && Reachable(statuses, g);
    FailingShrinks(statuses, bad);
    var next := statuses[bad := Red];
    SomeGreenExactly(next);
    if TestPartition(next, hasLog) {
      GreensFail(next, answers, hasLog, y);
    } else {
      NoGreenIfOneLive(next, y);
    }
  }

  // ---------------------------------------------------------------------------------------------
  // The whole operation
  // ---------------------------------------------------------------------------------------------

  /** The write reaches the drives that are not RED and do not answer with an error. */
  function Sent<V>(
      statuses: seq<DriveStatus>, slots: seq<Slot<V>>, op: Operation<V>, errors: set<int>): (r: seq<Slot<V>>)
    requires |statuses| == |slots|
    ensures |r| == |slots|
  {
    seq(|slots|, d requires 0 <= d < |slots| =>
      if statuses[d].Red? || d in errors then slots[d] else op.SlotOn(slots[d]))
  }

  function Replies<V>(
      statuses: seq<DriveStatus>, slots: seq<Slot<V>>, op: Operation<V>, errors: set<int>): (r: seq<Status>)
    requires |statuses| == |slots|
    ensures |r| == |slots|
  {
    seq(|slots|, d requires 0 <= d < |slots| =>
      if statuses[d].Red? || d in errors then Unreachable else op.StatusOn(slots[d]))
  }

  /** New colours, new slots and what the caller is told. */
  ghost function WriteFully<V>(
      statuses: seq<DriveStatus>, slots: seq<Slot<V>>, op: Operation<V>, errors: set<int>, hasLog: bool)
    : (r: (seq<DriveStatus>, seq<Slot<V>>, Status))
    requires |statuses| == |slots| && HasGreen(statuses)
    ensures |r.0| == |statuses| && |r.1| == |slots|
  {
    var written := Sent(statuses, slots, op, errors);
    var (left, outcome) := Evaluated(statuses, Replies(statuses, slots, op, errors), hasLog);
    if outcome.PartialWrite? then
      var g := FirstGreen(left);
      (left, Repaired(left, g, written), op.StatusAfterRepair(written[g]))
    else (left, written, outcome.status)
  }

  /** The colours that are left when all drives with unexpected answers are failed. */
  ghost function LeftOver<V>(statuses: seq<DriveStatus>, slots: seq<Slot<V>>, op: Operation<V>, errors: set<int>)
    : (r: seq<DriveStatus>)
    requires |statuses| == |slots|
    ensures |r| == |statuses|
  {
    Without(statuses, Replies(statuses, slots, op, errors))
  }

  /** On the drives that are left the operation is the one without errors and failures, provided that it would not have
    changed the drives that were failed for their answer. */
  lemma {:induction false} LeftIsPlain<V(!new)>(
      statuses: seq<DriveStatus>, slots: seq<Slot<V>>, op: Operation<V>, errors: set<int>, hasLog: bool)
    requires |statuses| == |slots| && HasGreen(statuses)
    requires TestPartition(LeftOver(statuses, slots, op, errors), hasLog)
    requires forall d :: Reachable(statuses, d) && Unexpected(op.StatusOn(slots[d])) ==> op.SlotOn(slots[d]) == slots[d]
    ensures
      var left := LeftOver(statuses, slots, op, errors);
      && HasGreen(left)
      && var (after, outcome) := Replicated(left, FirstGreen(left), slots, op);
      outcome.Agreed? && WriteFully(statuses, slots, op, errors, hasLog) == (left, after, outcome.status)
  {
    var replies, left := Replies(statuses, slots, op, errors), LeftOver(statuses, slots, op, errors);
    UnexpectedFail(statuses, replies, hasLog);
    var g := FirstGreen(left);
    assert Sent(statuses, slots, op, errors) == Written(left, slots, op);
    var answers := Answers(left, slots, op);
    assert forall d :: Reachable(left, d) ==> answers[d] == replies[d] && !Unexpected(replies[d]);
    SameEvaluation(left, g, answers, replies);
  }

  lemma {:induction false} SameEvaluation(left: seq<DriveStatus>, g: nat, answers: seq<Status>, replies: seq<Status>)
    requires |left| == |answers| == |replies| && IsFirstGreen(left, g)
    requires forall d :: Reachable(left, d) ==> answers[d] == replies[d] && !Unexpected(replies[d])
    ensures Evaluate(left, g, answers) == Evaluate(left, g, replies) && !Evaluate(left, g, answers).FailDrive?
  {
    assert Reachable(left, g);
    assert AllEqual(left, g, answers) <==> AllEqual(left, g, replies);
    FirstIsUnexpected(left, answers);
    FirstIsUnexpected(left, replies);
    assert forall d :: 0 <= d < |left| && !left[d].Red? ==> Reachable(left, d);
  }

  /** If the drives cannot be spared, the caller is told one of the unexpected answers. */
  lemma {:induction false} LeftIsNotEnough<V(!new)>(
      statuses: seq<DriveStatus>, slots: seq<Slot<V>>, op: Operation<V>, errors: set<int>, hasLog: bool)
    requires |statuses| == |slots| && HasGreen(statuses)
    requires AnyUnexpected(statuses, Replies(statuses, slots, op, errors))
    requires !TestPartition(LeftOver(statuses, slots, op, errors), hasLog)
    ensures
      var r := WriteFully(statuses, slots, op, errors, hasLog);
      && r.1 == Sent(statuses, slots, op, errors) && Unexpected(r.2)
      && exists d :: Reachable(statuses, d) && r.2 == Replies(statuses, slots, op, errors)[d]
  {
    UnexpectedStays(statuses, Replies(statuses, slots, op, errors), hasLog);
  }

  // ---------------------------------------------------------------------------------------------
  // Putting
  // ---------------------------------------------------------------------------------------------

  /** What is left of GREEN drives that agree agrees. */
  lemma {:induction false} LeftAgrees<V(!new)>(
      statuses: seq<DriveStatus>, g: nat, slots: seq<Slot<V>>, op: Operation<V>, errors: set<int>)
    requires |statuses| == |slots| && IsFirstGreen(statuses, g) && HasGreen(LeftOver(statuses, slots, op, errors))
    requires GreensAgree(statuses, g, slots) && Traceable(statuses, g, slots)
    ensures
      var left := LeftOver(statuses, slots, op, errors);
      var h := FirstGreen(left);
      slots[h] == slots[g] && GreensAgree(left, h, slots) && Traceable(left, h, slots)
  {
    var left := LeftOver(statuses, slots, op, errors);
    assert forall d :: 0 <= d < |left| && !left[d].Red? ==> left[d] == statuses[d];
    assert forall d :: Reachable(left, d) ==> Reachable(statuses, d);
  }

  /** No drive errs, or the partition can do without those that do. */
  ghost predicate Spared<V>(
      statuses: seq<DriveStatus>, slots: seq<Slot<V>>, op: Operation<V>, errors: set<int>, hasLog: bool)
    requires |statuses| == |slots|
  {
    || (forall d :: Reachable(statuses, d) ==> d !in errors)
    || TestPartition(LeftOver(statuses, slots, op, errors), hasLog)
  }

  /** A replicated put that some drives answer with an error. The caller is told what one drive would say exactly when
    no drive errs or the partition can do without those that do. Then exactly these are failed, the GREEN drives that
    are left hold what one drive would hold, and what is left agrees or is unchanged. */
  lemma {:induction false} PutExact<V(!new)>(
      statuses: seq<DriveStatus>, g: nat, slots: seq<Slot<V>>, op: Operation<V>, errors: set<int>, hasLog: bool)
    requires op.PutOp? && |statuses| == |slots| && IsFirstGreen(statuses, g)
    requires GreensAgree(statuses, g, slots) && Traceable(statuses, g, slots)
    requires op.mode.RequireSameVersion? ==> FreshVersion(statuses, slots, op.record.version)
    ensures
      var left := LeftOver(statuses, slots, op, errors);
      var spared := Spared(statuses, slots, op, errors, hasLog);
      var (statuses', after, status) := WriteFully(statuses, slots, op, errors, hasLog);
      && (status == op.StatusOn(slots[g]) <==> spared)
      && (spared ==> statuses' == left && HasGreen(left) && PutLeaves(left, FirstGreen(left), slots, op, after))
  {
    var left := LeftOver(statuses, slots, op, errors);
    var replies := Replies(statuses, slots, op, errors);
    assert forall d :: Reachable(statuses, d) ==> (Unexpected(replies[d]) <==> d in errors);
    if TestPartition(left, hasLog) {
      PutSpared(statuses, g, slots, op, errors, hasLog);
    } else if AnyUnexpected(statuses, replies) {
      var d :| 0 <= d < |statuses| && !statuses[d].Red? && Unexpected(replies[d]);
      assert Reachable(statuses, d);
      LeftIsNotEnough(statuses, slots, op, errors, hasLog);
    } else {
      assert forall d :: 0 <= d < |statuses| && !statuses[d].Red? ==> Reachable(statuses, d);
      PutWithoutErrors(statuses, g, slots, op, errors, hasLog);
    }
  }

  /** GREEN drives hold the outcome of one drive, and all reachable drives agree or none of them changed. */
  ghost predicate PutLeaves<V(!new)>(
      left: seq<DriveStatus>, h: nat, slots: seq<Slot<V>>, op: Operation<V>, after: seq<Slot<V>>)
    requires |left| == |slots| == |after| && h < |left|
  {
    && (forall d :: 0 <= d < |left| && left[d].Green? ==> after[d] == op.SlotOn(slots[h]))
    && (forall d :: 0 <= d < |left| && left[d].Red? ==> after[d] == slots[d])
    && (AllAgree(left, h, after) || after == slots)
  }

  lemma {:induction false} PutSpared<V(!new)>(
      statuses: seq<DriveStatus>, g: nat, slots: seq<Slot<V>>, op: Operation<V>, errors: set<int>, hasLog: bool)
    requires op.PutOp? && |statuses| == |slots| && IsFirstGreen(statuses, g)
    requires GreensAgree(statuses, g, slots) && Traceable(statuses, g, slots)
    requires op.mode.RequireSameVersion? ==> FreshVersion(statuses, slots, op.record.version)
    requires TestPartition(LeftOver(statuses, slots, op, errors), hasLog)
    ensures
      var left := LeftOver(statuses, slots, op, errors);
      var (statuses', after, status) := WriteFully(statuses, slots, op, errors, hasLog);
      && statuses' == left && HasGreen(left) && status == op.StatusOn(slots[g])
      && PutLeaves(left, FirstGreen(left), slots, op, after)
  {
    var left := LeftOver(statuses, slots, op, errors);
    LeftIsPlain(statuses, slots, op, errors, hasLog);
    LeftAgrees(statuses, g, slots, op, errors);
    assert forall d :: Reachable(left, d) ==> Reachable(statuses, d);
    PutRefinesSingleDrive(left, FirstGreen(left), slots, op);
  }

  lemma {:induction false} PutWithoutErrors<V(!new)>(
      statuses: seq<DriveStatus>, g: nat, slots: seq<Slot<V>>, op: Operation<V>, errors: set<int>, hasLog: bool)
    requires op.PutOp? && |statuses| == |slots| && IsFirstGreen(statuses, g)
    requires GreensAgree(statuses, g, slots) && Traceable(statuses, g, slots)
    requires op.mode.RequireSameVersion? ==> FreshVersion(statuses, slots, op.record.version)
    requires forall d :: Reachable(statuses, d) ==> d !in errors
    ensures
      var (statuses', after, status) := WriteFully(statuses, slots, op, errors, hasLog);
      && LeftOver(statuses, slots, op, errors) == statuses
      && statuses' == statuses && status == op.StatusOn(slots[g]) && PutLeaves(statuses, g, slots, op, after)
  {
    NothingFails(statuses, g, slots, op, errors, hasLog);
    PutRefinesSingleDrive(statuses, g, slots, op);
  }

  lemma {:induction false} PutLeftOver<V(!new)>(statuses: seq<DriveStatus>, slots: seq<Slot<V>>, op: Operation<V>)
    requires op.PutOp? && |statuses| == |slots|
    ensures LeftOver(statuses, slots, op, {}) == statuses
  {}

  /** Without errors and unexpected answers nothing is failed. */
  lemma {:induction false} NothingFails<V(!new)>(
      statuses: seq<DriveStatus>, g: nat, slots: seq<Slot<V>>, op: Operation<V>, errors: set<int>, hasLog: bool)
    requires |statuses| == |slots| && IsFirstGreen(statuses, g)
    requires forall d :: Reachable(statuses, d) ==> d !in errors && !Unexpected(op.StatusOn(slots[d]))
    ensures
      var (after, outcome) := Replicated(statuses, g, slots, op);
      && LeftOver(statuses, slots, op, errors) == statuses
      && outcome.Agreed? && WriteFully(statuses, slots, op, errors, hasLog) == (statuses, after, outcome.status)
  {
    var replies := Replies(statuses, slots, op, errors);
    assert forall d :: 0 <= d < |statuses| && !statuses[d].Red? ==> Reachable(statuses, d);
    assert !AnyUnexpected(statuses, replies);
    WithoutNone(statuses, replies);
    assert Sent(statuses, slots, op, errors) == Written(statuses, slots, op);
    assert replies == Answers(statuses, slots, op);
    FirstIsUnexpected(statuses, replies);
  }

  // ---------------------------------------------------------------------------------------------
  // Deleting
  // ---------------------------------------------------------------------------------------------

  ghost function Holders<V>(statuses: seq<DriveStatus>, slots: seq<Slot<V>>): set<int>
    requires |statuses| == |slots|
  {
    set d | 0 <= d < |statuses| && !statuses[d].Red? && slots[d].Present?
  }

  lemma {:induction false} HoldersAreLeft<V(!new)>(statuses: seq<DriveStatus>, slots: seq<Slot<V>>, op: Operation<V>)
    requires op.DeleteOp? && |statuses| == |slots|
    ensures Live(LeftOver(statuses, slots, op, {})) == Holders(statuses, slots)
  {}

  /** When a delete is answered as by one drive: the GREEN drives lack the key, or every reachable drive has it, or the
    drives without it can be spared. */
  ghost predicate DeleteAnswers<V>(statuses: seq<DriveStatus>, g: nat, slots: seq<Slot<V>>, hasLog: bool)
    requires g < |statuses| == |slots|
  {
    || slots[g].Absent?
    || (forall d :: Reachable(statuses, d) ==> slots[d].Present?)
    || hasLog
    || |Holders(statuses, slots)| >= 2
  }

  /** A replicated delete. The caller is told what one drive would say exactly under the condition above; the GREEN
    drives that are left are as that drive would be in any case; and one is left exactly when the GREEN drives have the
    key or no reachable drive has it. */
  lemma {:induction false} DeleteExact<V(!new)>(
      statuses: seq<DriveStatus>, g: nat, slots: seq<Slot<V>>, op: Operation<V>, hasLog: bool)
    requires op.DeleteOp? && |statuses| == |slots| && IsFirstGreen(statuses, g)
    requires GreensAgree(statuses, g, slots) && Traceable(statuses, g, slots)
    ensures
      var (left, after, status) := WriteFully(statuses, slots, op, {}, hasLog);
      && (status == op.StatusOn(slots[g]) <==> DeleteAnswers(statuses, g, slots, hasLog))
      && (forall d :: 0 <= d < |left| && left[d].Green? ==> after[d] == op.SlotOn(slots[g]))
      && (HasGreen(left) <==> slots[g].Present? || forall d :: Reachable(statuses, d) ==> slots[d].Absent?)
      && (HasGreen(left) ==> IsFirstGreen(left, g) && DeleteLeaves(statuses, g, slots, after))
      && (UniformlyPresent(statuses, g, slots) ==> left == statuses)
  {
    if slots[g].Absent? {
      DeleteAbsent(statuses, g, slots, op, hasLog);
    } else {
      DeletePresent(statuses, g, slots, op, hasLog);
    }
  }

  /** No drive that was not RED before has become different from the reference drive. */
  ghost predicate DeleteLeaves<V(!new)>(statuses: seq<DriveStatus>, g: nat, slots: seq<Slot<V>>, after: seq<Slot<V>>)
    requires g < |statuses| == |slots| == |after|
  {
    && (forall d :: 0 <= d < |statuses| && statuses[d].Red? ==> after[d] == slots[d])
    && (forall d :: Reachable(statuses, d) ==>
          SameVersion(after[d], after[g]) || (after[d] == slots[d] && after[g] == slots[g]))
  }

  lemma {:induction false} DeleteAbsent<V(!new)>(
      statuses: seq<DriveStatus>, g: nat, slots: seq<Slot<V>>, op: Operation<V>, hasLog: bool)
    requires op.DeleteOp? && |statuses| == |slots| && IsFirstGreen(statuses, g)
    requires GreensAgree(statuses, g, slots) && slots[g].Absent?
    ensures
      var (left, after, status) := WriteFully(statuses, slots, op, {}, hasLog);
      && status == NotFound
      && (HasGreen(left) <==> forall d :: Reachable(statuses, d) ==> slots[d].Absent?)
      && (HasGreen(left) ==> left == statuses && after == slots)
      && (forall d :: 0 <= d < |left| && left[d].Green? ==> after[d] == Absent)
  {
    var replies := Replies(statuses, slots, op, {});
    assert Reachable(statuses, g);
    if y: nat :| Reachable(statuses, y) && slots[y].Present? {
      GreensFail(statuses, replies, hasLog, y);
      var left := LeftOver(statuses, slots, op, {});
      assert forall d :: 0 <= d < |left| ==> !left[d].Green?;
      assert !SomeGreen(left);
      LeftIsNotEnough(statuses, slots, op, {}, hasLog);
      SomeGreenExactly(WriteFully(statuses, slots, op, {}, hasLog).0);
    } else {
      assert AllEqual(statuses, g, replies);
      assert Sent(statuses, slots, op, {}) == slots;
    }
  }

  /** Only drives with an unexpected answer change their colour. */
  lemma {:induction false} EvaluatedColours(statuses: seq<DriveStatus>, answers: seq<Status>, hasLog: bool)
    requires |statuses| == |answers| && HasGreen(statuses)
    ensures
      var r := Evaluated(statuses, answers, hasLog);
      forall d :: 0 <= d < |statuses| ==> r.0[d] == statuses[d] || (r.0[d].Red? && Unexpected(answers[d]))
    decreases |Live(statuses)|
  {
    var bad := FirstUnexpected(statuses, answers, 0);
    if bad < |statuses| {
      FailingShrinks(statuses, bad);
      var next := statuses[bad := Red];
      SomeGreenExactly(next);
      if TestPartition(next, hasLog) { EvaluatedColours(next, answers, hasLog); }
    }
  }

  /** The drives with the key are left, or the one that has it cannot be left alone. */
  lemma {:induction false} HoldersSuffice<V(!new)>(
      statuses: seq<DriveStatus>, g: nat, slots: seq<Slot<V>>, op: Operation<V>, hasLog: bool)
    requires op.DeleteOp? && |statuses| == |slots| && IsFirstGreen(statuses, g) && slots[g].Present?
    ensures
      var left := LeftOver(statuses, slots, op, {});
      && IsFirstGreen(left, g)
      && (AnyUnexpected(statuses, Replies(statuses, slots, op, {})) ==>
            (TestPartition(left, hasLog) <==> DeleteAnswers(statuses, g, slots, hasLog)))
      && (!AnyUnexpected(statuses, Replies(statuses, slots, op, {})) <==>
            forall d :: Reachable(statuses, d) ==> slots[d].Present?)
  {
    var left, replies := LeftOver(statuses, slots, op, {}), Replies(statuses, slots, op, {});
    HoldersAreLeft(statuses, slots, op);
    assert left[g].Green? && SomeGreen(left) && g in Holders(statuses, slots);
    if AnyUnexpected(statuses, replies) {
      var d :| 0 <= d < |statuses| && !statuses[d].Red? && Unexpected(replies[d]);
      assert Reachable(statuses, d) && slots[d].Absent? && d != g;
      assert |Holders(statuses, slots)| != 0;
    } else {
      forall d | Reachable(statuses, d) ensures slots[d].Present? {
        assert !Unexpected(replies[d]);
      }
    }
  }

  lemma {:induction false} DeletePlain<V(!new)>(
      statuses: seq<DriveStatus>, left: seq<DriveStatus>, g: nat, slots: seq<Slot<V>>, op: Operation<V>)
    requires op.DeleteOp? && |statuses| == |left| == |slots| && IsFirstGreen(left, g) && slots[g].Present?
    requires GreensAgree(left, g, slots) && Traceable(left, g, slots) && UniformlyPresent(left, g, slots)
    requires forall d :: 0 <= d < |left| ==> left[d] == statuses[d] || (left[d].Red? && slots[d].Absent?)
    ensures
      var (after, outcome) := Replicated(left, g, slots, op);
      && outcome == Agreed(op.StatusOn(slots[g])) && DeleteLeaves(statuses, g, slots, after)
      && (forall d :: 0 <= d < |left| && left[d].Green? ==> after[d] == op.SlotOn(slots[g]))
  {
    DeleteRefinesSingleDrive(left, g, slots, op);
    var (after, outcome) := Replicated(left, g, slots, op);
    forall d | Reachable(statuses, d)
      ensures SameVersion(after[d], after[g]) || (after[d] == slots[d] && after[g] == slots[g])
    {
      if Reachable(left, d) && AllAgree(left, g, after) {
        assert after[d] == after[g];
      }
    }
  }

  lemma {:induction false} DeletePresent<V(!new)>(
      statuses: seq<DriveStatus>, g: nat, slots: seq<Slot<V>>, op: Operation<V>, hasLog: bool)
    requires op.DeleteOp? && |statuses| == |slots| && IsFirstGreen(statuses, g)
    requires GreensAgree(statuses, g, slots) && Traceable(statuses, g, slots) && slots[g].Present?
    ensures
      var (left, after, status) := WriteFully(statuses, slots, op, {}, hasLog);
      && (status == op.StatusOn(slots[g]) <==> DeleteAnswers(statuses, g, slots, hasLog))
      && IsFirstGreen(left, g) && DeleteLeaves(statuses, g, slots, after)
      && (forall d :: 0 <= d < |left| && left[d].Green? ==> after[d] == op.SlotOn(slots[g]))
      && (UniformlyPresent(statuses, g, slots) ==> left == statuses)
  {
    var left := LeftOver(statuses, slots, op, {});
    HoldersSuffice(statuses, g, slots, op, hasLog);
    if !AnyUnexpected(statuses, Replies(statuses, slots, op, {})) {
      NothingFails(statuses, g, slots, op, {}, hasLog);
      DeletePlain(statuses, statuses, g, slots, op);
    } else if TestPartition(left, hasLog) {
      LeftIsPlain(statuses, slots, op, {}, hasLog);
      LeftAgrees(statuses, g, slots, op, {});
      DeletePlain(statuses, left, g, slots, op);
    } else {
      DeleteRefused(statuses, g, slots, op, hasLog);
    }
  }

  lemma {:induction false} DeleteRefused<V(!new)>(
      statuses: seq<DriveStatus>, g: nat, slots: seq<Slot<V>>, op: Operation<V>, hasLog: bool)
    requires op.DeleteOp? && |statuses| == |slots| && IsFirstGreen(statuses, g) && slots[g].Present?
    requires GreensAgree(statuses, g, slots) && AnyUnexpected(statuses, Replies(statuses, slots, op, {}))
    requires !TestPartition(LeftOver(statuses, slots, op, {}), hasLog)
    ensures
      var (left, after, status) := WriteFully(statuses, slots, op, {}, hasLog);
      && status == NotFound && IsFirstGreen(left, g) && DeleteLeaves(statuses, g, slots, after)
      && (forall d :: 0 <= d < |left| && left[d].Green? ==> after[d] == op.SlotOn(slots[g]))
  {
    var replies := Replies(statuses, slots, op, {});
    LeftIsNotEnough(statuses, slots, op, {}, hasLog);
    EvaluatedColours(statuses, replies, hasLog);
    OneHolder(statuses, g, slots, op, hasLog);
  }

  /** A drive that cannot be left alone is the only one with the key. */
  lemma {:induction false} OneHolder<V(!new)>(
      statuses: seq<DriveStatus>, g: nat, slots: seq<Slot<V>>, op: Operation<V>, hasLog: bool)
    requires op.DeleteOp? && |statuses| == |slots| && IsFirstGreen(statuses, g) && slots[g].Present?
    requires !TestPartition(LeftOver(statuses, slots, op, {}), hasLog)
    ensures forall d :: Reachable(statuses, d) && slots[d].Present? ==> d == g
  {
    var left := LeftOver(statuses, slots, op, {});
    assert left[g].Green? && SomeGreen(left);
    forall d: nat | Reachable(statuses, d) && slots[d].Present? ensures d == g {
      assert Reachable(left, d) && Reachable(left, g);
      if d != g { TwoLive(left, d, g); }
    }
  }

  /** A GREEN drive with the key, a YELLOW one without it and no log drive: the key is deleted, and the caller is told
    that it was not found. */
  lemma {:induction false} DeleteRefusedInput<V(!new)>(record: Record<V>)
    ensures
      var statuses, slots := [Green, Yellow], [Present(record), Absent];
      var op: Operation<V> := DeleteOp(record.version, RequireSameVersion);
      && HasGreen(statuses) && op.StatusOn(slots[0]) == Ok
      && var (left, after, status) := WriteFully(statuses, slots, op, {}, false);
      status == NotFound && after[0] == Absent
  {
    var statuses, slots := [Green, Yellow], [Present(record), Absent];
    var op: Operation<V> := DeleteOp(record.version, RequireSameVersion);
    assert IsFirstGreen(statuses, 0);
    assert Reachable(statuses, 1);
    assert Holders(statuses, slots) == {0};
    DeleteExact(statuses, 0, slots, op, false);
    assert !DeleteAnswers(statuses, 0, slots, false);
    HoldersSuffice(statuses, 0, slots, op, false);
    DeleteRefused(statuses, 0, slots, op, false);
  }
}
