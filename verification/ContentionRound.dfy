/** One contention round on one replicated key.

  Any number of clients call Put with the same expected version and their own record. Each client
  sends one put per reachable drive, in any order; when all answers are in it either takes the common
  answer or, on a partial write, runs read repair from the first GREEN drive. Every per-drive request
  is one atomic step and the steps of all clients interleave freely.
 */
module ContentionRound {
  import opened KineticStore
  import opened Replication

  datatype Round<V> = Round(
    statuses: seq<DriveStatus>,
    reference: nat,
    expected: Version,
    initial: seq<Slot<V>>,
    requests: seq<Record<V>>)

  datatype Phase<V> =
    | Writing
    | FetchReference
    | Enforce(reference: Slot<V>, drive: nat)
    | CompareAndSet(reference: Slot<V>, drive: nat, seen: Slot<V>)
    | Done(status: Status, repaired: bool)

  datatype Client<V> = Client(answers: map<nat, Status>, phase: Phase<V>)

  datatype State<V> = State(drives: seq<Slot<V>>, clients: seq<Client<V>>)

  /** Put(c, d) is client c's put arriving at drive d; Advance(c) is client c's next own step. */
  datatype Event = Put(client: nat, drive: nat) | Advance(client: nat)

  predicate Live(r: Round, d: int) {
    0 <= d < |r.statuses| && !r.statuses[d].Red?
  }

  /** GREEN drives agree on the expected version, YELLOW ones hold anything, and the new versions are
      distinct and held by no drive. */
  ghost predicate ValidRound<V(!new)>(r: Round<V>) {
    && IsFirstGreen(r.statuses, r.reference)
    && |r.initial| == |r.statuses|
    && (forall d :: 0 <= d < |r.statuses| && r.statuses[d].Green? ==> r.initial[d].Version() == r.expected)
    && (forall c :: 0 <= c < |r.requests| ==> r.requests[c].version != r.expected)
    && (forall c, d :: 0 <= c < |r.requests| && 0 <= d < |r.initial| ==>
      r.requests[c].version != r.initial[d].Version())
    && (forall c, c' :: 0 <= c < c' < |r.requests| ==> r.requests[c].version != r.requests[c'].version)
  }

  predicate Complete(r: Round, cl: Client) {
    forall d :: 0 <= d < |r.statuses| && !r.statuses[d].Red? ==> d in cl.answers
  }

  function Initial<V>(r: Round<V>): State<V> {
    State(r.initial, seq(|r.requests|, _ => Client(map[], Writing)))
  }

  predicate Enabled<V>(r: Round<V>, s: State<V>, e: Event)
  {
    && |s.drives| == |r.statuses|
    && |s.clients| == |r.requests|
    && e.client < |s.clients|
    && var cl := s.clients[e.client];
    match e
    case Put(_, d) => cl.phase.Writing? && Live(r, d) && d !in cl.answers
    case Advance(_) =>
      match cl.phase
      case Writing => Complete(r, cl)
      case FetchReference => true
      case Enforce(_, _) => true
      case CompareAndSet(_, d, _) => d < |s.drives|
      case Done(_, _) => false
  }

  /** Step B and D of evaluating a write: equal answers stand, anything else is a partial write. */
  function Evaluate<V>(r: Round<V>, cl: Client<V>): Phase<V>
    requires Live(r, r.reference) && Complete(r, cl)
  {
    var answer := cl.answers[r.reference];
    if forall d :: 0 <= d < |r.statuses| && !r.statuses[d].Red? ==> cl.answers[d] == answer
    then Done(answer, false)
    else FetchReference
  }

  /** What the caller of read repair concludes from the reference record. */
  function Conclude<V>(own: Record<V>, reference: Slot<V>): Phase<V> {
    Done(if reference.Present? && own.version == reference.Version() then Ok else VersionMismatch, true)
  }

  function SetPhase<V>(s: State<V>, c: nat, p: Phase<V>): State<V>
    requires c < |s.clients|
  {
    s.(clients := s.clients[c := s.clients[c].(phase := p)])
  }

  function Step<V>(r: Round<V>, s: State<V>, e: Event): State<V>
    requires Live(r, r.reference) && Enabled(r, s, e)
  {
    var c := e.client;
    var cl := s.clients[c];
    match e
    case Put(_, d) =>
      var answer := PutStatus(s.drives[d], r.expected, RequireSameVersion);
      State(
        s.drives[d := PutSlot(s.drives[d], r.expected, RequireSameVersion, r.requests[c])],
        s.clients[c := cl.(answers := cl.answers[d := answer])])
    case Advance(_) =>
      match cl.phase
      case Writing => SetPhase(s, c, Evaluate(r, cl))
      case FetchReference => SetPhase(s, c, Enforce(s.drives[r.reference], 0))
      case Enforce(reference, d) =>
        if d >= |r.statuses| then SetPhase(s, c, Conclude(r.requests[c], reference))
        else if r.statuses[d].Red? then SetPhase(s, c, Enforce(reference, d + 1))
        else SetPhase(s, c, CompareAndSet(reference, d, s.drives[d]))
      case CompareAndSet(reference, d, seen) =>
        var status := RepairStatus(reference, seen, s.drives[d]);
        var s1 := s.(drives := s.drives[d := RepairSlot(reference, seen, s.drives[d])]);
        if status.VersionMismatch? && d == r.reference
        then SetPhase(s1, c, Conclude(r.requests[c], reference)) // repair no longer required
        else SetPhase(s1, c, Enforce(reference, d + 1))
  }

  /** The state after a run; a run is any sequence of enabled events. */
  ghost predicate Run<V(!new)>(r: Round<V>, s: State<V>, events: seq<Event>, s': State<V>)
    requires Live(r, r.reference)
    decreases |events|
  {
    if events == [] then s' == s
    else Enabled(r, s, events[0]) && Run(r, Step(r, s, events[0]), events[1..], s')
  }

  /** Client c's record is the one on the reference drive. */
  predicate Wins<V(==)>(r: Round<V>, s: State<V>, c: int)
    requires r.reference < |r.statuses| && |s.drives| == |r.statuses|
  {
    0 <= c < |r.requests| && s.drives[r.reference] == Present(r.requests[c])
  }

  /** Every reachable drive holds client c's record. */
  ghost predicate Converged<V(!new)>(r: Round<V>, s: State<V>, c: int)
    requires |s.drives| == |r.statuses|
  {
    0 <= c < |r.requests| && forall d :: Live(r, d) ==> s.drives[d] == Present(r.requests[c])
  }

  // ---------------------------------------------------------------------------------------------
  // What every step keeps
  // ---------------------------------------------------------------------------------------------

  ghost predicate Shape<V(!new)>(r: Round<V>, s: State<V>) {
    && |s.drives| == |r.statuses|
    && |s.clients| == |r.requests|
    && (forall c, d :: 0 <= c < |s.clients| && d in s.clients[c].answers ==> Live(r, d))
  }

  /** A drive whose version is that of a client's record holds exactly that record. */
  ghost predicate VersionIdentifies<V(!new)>(r: Round<V>, s: State<V>)
    requires Shape(r, s)
  {
    forall c, d :: 0 <= c < |r.requests| && Live(r, d) && s.drives[d].Version() == r.requests[c].version ==>
      s.drives[d] == Present(r.requests[c])
  }

  /** An answered drive no longer holds the expected version. */
  ghost predicate Answered<V(!new)>(r: Round<V>, s: State<V>)
    requires Shape(r, s)
  {
    forall c, d :: 0 <= c < |s.clients| && Live(r, d) && d in s.clients[c].answers ==>
      s.drives[d].Version() != r.expected
  }

  /** An OK answer means the drive holds that client's record, unless repair already replaced it. */
  ghost predicate AnswersMatch<V(!new)>(r: Round<V>, s: State<V>)
    requires Shape(r, s) && ValidRound(r)
  {
    && (forall c, d ::
          0 <= c < |s.clients| && Live(r, d) && d in s.clients[c].answers && s.clients[c].answers[d] == Ok ==>
          s.drives[d] == Present(r.requests[c]) || s.drives[d] == s.drives[r.reference])
    && (forall c, d :: 0 <= c < |s.clients| && d in s.clients[c].answers ==>
      s.clients[c].answers[d].Ok? || s.clients[c].answers[d].VersionMismatch?)
    && (forall c :: 0 <= c < |s.clients| && r.reference in s.clients[c].answers ==>
          (s.clients[c].answers[r.reference] == Ok <==> Wins(r, s, c)))
  }

  /** The reference drive is still untouched, or the client whose record it holds got its OK there. */
  ghost predicate WinnerAnswered<V(!new)>(r: Round<V>, s: State<V>)
    requires Shape(r, s) && ValidRound(r)
  {
    var g := r.reference;
    s.drives[g].Version() == r.expected
    || exists w :: Wins(r, s, w) && g in s.clients[w].answers
  }

  ghost predicate PhaseOk<V(!new)>(r: Round<V>, s: State<V>, c: int)
    requires Shape(r, s) && ValidRound(r) && 0 <= c < |s.clients|
  {
    var cl := s.clients[c];
    var reference := s.drives[r.reference];
    && (!cl.phase.Writing? ==> Complete(r, cl))
    && match cl.phase
       case Writing => true
       case FetchReference => true
       case Enforce(ref, i) => ref == reference && forall d :: Live(r, d) && d < i ==> s.drives[d] == reference
       case CompareAndSet(ref, i, seen) =>
         && ref == reference
         && Live(r, i)
         && (forall d :: Live(r, d) && d < i ==> s.drives[d] == reference)
         && (s.drives[i] == seen || s.drives[i] == reference)
         && (i == r.reference ==> seen == reference)
       case Done(status, repaired) =>
         && (status == Ok <==> Wins(r, s, c))
         && (status.Ok? || status.VersionMismatch?)
         && (repaired ==> forall d :: Live(r, d) ==> s.drives[d] == reference)
         && (!repaired ==> forall d :: Live(r, d) ==> cl.answers[d] == status)
  }

  ghost predicate Inv<V(!new)>(r: Round<V>, s: State<V>) {
    && ValidRound(r)
    && Shape(r, s)
    && VersionIdentifies(r, s)
    && Answered(r, s)
    && AnswersMatch(r, s)
    && WinnerAnswered(r, s)
    && forall c :: 0 <= c < |s.clients| ==> PhaseOk(r, s, c)
  }

  lemma {:induction false} InitialInv<V(!new)>(r: Round<V>)
    requires ValidRound(r)
    ensures Inv(r, Initial(r))
  {
  }

  /** Once some client has all its answers, no reachable drive holds the expected version and a winner exists. */
  lemma {:induction false} AfterWriting<V(!new)>(r: Round<V>, s: State<V>, c: int) returns (w: int)
    requires Inv(r, s) && 0 <= c < |s.clients| && Complete(r, s.clients[c])
    ensures forall d :: Live(r, d) ==> s.drives[d].Version() != r.expected
    ensures Wins(r, s, w) && r.reference in s.clients[w].answers
  {
    var g := r.reference;
    assert Live(r, g);
    w :| Wins(r, s, w) && g in s.clients[w].answers;
  }

  /** A put that finds the expected version: nobody can have all answers yet. */
  lemma {:induction false} SuccessfulPutKeepsInv<V(!new)>(r: Round<V>, s: State<V>, c: nat, d: nat)
    requires Inv(r, s) && Enabled(r, s, Put(c, d)) && s.drives[d].Version() == r.expected
    ensures Inv(r, Step(r, s, Put(c, d)))
  {
    var s' := Step(r, s, Put(c, d));
    forall o | 0 <= o < |s.clients| ensures s.clients[o].phase.Writing? {
      assert PhaseOk(r, s, o);
    }
    assert WinnerAnswered(r, s') by {
      if d == r.reference {
        assert Wins(r, s', c);
      } else if s.drives[r.reference].Version() != r.expected {
        var w :| Wins(r, s, w) && r.reference in s.clients[w].answers;
        assert Wins(r, s', w);
      }
    }
    assert AnswersMatch(r, s');
  }

  lemma {:induction false} FailedPutKeepsAnswers<V(!new)>(r: Round<V>, s: State<V>, c: nat, d: nat)
    requires Inv(r, s) && Enabled(r, s, Put(c, d)) && s.drives[d].Version() != r.expected
    ensures
      var s' := Step(r, s, Put(c, d));
      Shape(r, s') && Answered(r, s') && AnswersMatch(r, s') && WinnerAnswered(r, s')
  {
    var s' := Step(r, s, Put(c, d));
    assert s'.drives == s.drives;
    if s.drives[r.reference].Version() != r.expected {
      var w :| Wins(r, s, w) && r.reference in s.clients[w].answers;
      assert Wins(r, s', w);
    }
  }

  lemma {:induction false} FailedPutKeepsInv<V(!new)>(r: Round<V>, s: State<V>, c: nat, d: nat)
    requires Inv(r, s) && Enabled(r, s, Put(c, d)) && s.drives[d].Version() != r.expected
    ensures Inv(r, Step(r, s, Put(c, d)))
  {
    var s' := Step(r, s, Put(c, d));
    assert s'.drives == s.drives;
    FailedPutKeepsAnswers(r, s, c, d);
    forall o | 0 <= o < |s'.clients| ensures PhaseOk(r, s', o) {
      assert PhaseOk(r, s, o);
    }
  }

  /** Only the moving client's own phase has to be justified when the drives stay as they are. */
  lemma {:induction false} SetPhaseKeepsInv<V(!new)>(r: Round<V>, s: State<V>, c: nat, p: Phase<V>)
    requires Inv(r, s) && c < |s.clients|
    requires PhaseOk(r, SetPhase(s, c, p), c)
    ensures Inv(r, SetPhase(s, c, p))
  {
    var s' := SetPhase(s, c, p);
    assert forall o :: 0 <= o < |s.clients| ==> s'.clients[o].answers == s.clients[o].answers;
    assert WinnerAnswered(r, s') by {
      var g := r.reference;
      if s.drives[g].Version() != r.expected {
        var w :| Wins(r, s, w) && g in s.clients[w].answers;
        assert Wins(r, s', w) && g in s'.clients[w].answers;
      }
    }
    forall o | 0 <= o < |s'.clients| ensures PhaseOk(r, s', o) {
      assert PhaseOk(r, s, o);
    }
  }

  lemma {:induction false} EvaluateKeepsInv<V(!new)>(r: Round<V>, s: State<V>, c: nat)
    requires Inv(r, s) && Enabled(r, s, Advance(c)) && s.clients[c].phase.Writing?
    ensures Inv(r, Step(r, s, Advance(c)))
  {
    assert Live(r, r.reference);
    SetPhaseKeepsInv(r, s, c, Evaluate(r, s.clients[c]));
  }

  lemma {:induction false} EnforceKeepsInv<V(!new)>(r: Round<V>, s: State<V>, c: nat)
    requires Inv(r, s) && Enabled(r, s, Advance(c)) && s.clients[c].phase.Enforce?
    ensures Inv(r, Step(r, s, Advance(c)))
  {
    assert PhaseOk(r, s, c);
    var w := AfterWriting(r, s, c);
    var s' := Step(r, s, Advance(c));
    assert PhaseOk(r, s', c) by {
      var ph := s'.clients[c].phase;
      if ph.Done? {
        assert r.requests[w].version == r.requests[c].version <==> w == c;
      }
    }
    SetPhaseKeepsInv(r, s, c, s'.clients[c].phase);
  }

  /** Steps that leave the drives alone: evaluation, reading the reference, reading a version, skipping. */
  lemma {:induction false} LocalStepKeepsInv<V(!new)>(r: Round<V>, s: State<V>, c: nat)
    requires Inv(r, s) && Enabled(r, s, Advance(c)) && !s.clients[c].phase.CompareAndSet?
    ensures Inv(r, Step(r, s, Advance(c)))
  {
    assert PhaseOk(r, s, c);
    match s.clients[c].phase
    case Writing => EvaluateKeepsInv(r, s, c);
    case FetchReference => SetPhaseKeepsInv(r, s, c, Enforce(s.drives[r.reference], 0));
    case Enforce(_, _) => EnforceKeepsInv(r, s, c);
  }

  /** A repair write either changes nothing or installs the reference record. */
  lemma {:induction false} RepairWriteConverges<V(!new)>(r: Round<V>, s: State<V>, c: nat)
    requires Inv(r, s) && Enabled(r, s, Advance(c)) && s.clients[c].phase.CompareAndSet?
    ensures
      var ph := s.clients[c].phase;
      && RepairSlot(ph.reference, ph.seen, s.drives[ph.drive]) == s.drives[r.reference]
      && (RepairStatus(ph.reference, ph.seen, s.drives[ph.drive]) == VersionMismatch ==> ph.drive != r.reference)
  {
    assert PhaseOk(r, s, c);
    var w := AfterWriting(r, s, c);
  }

  /** The state with the reference drive's slot copied to drive d. */
  function Copy<V>(r: Round<V>, s: State<V>, d: nat): State<V>
    requires r.reference < |r.statuses| && |s.drives| == |r.statuses| && d < |s.drives|
  {
    s.(drives := s.drives[d := s.drives[r.reference]])
  }

  lemma {:induction false} CopyKeepsPhase<V(!new)>(r: Round<V>, s: State<V>, d: nat, o: nat)
    requires Inv(r, s) && Live(r, d) && o < |s.clients|
    ensures PhaseOk(r, Copy(r, s, d), o)
  {
    var g := r.reference;
    var s' := Copy(r, s, d);
    assert s'.drives[g] == s.drives[g];
    assert PhaseOk(r, s, o);
    assert Wins(r, s', o) == Wins(r, s, o);
  }

  lemma {:induction false} CopyKeepsInv<V(!new)>(r: Round<V>, s: State<V>, c: nat, d: nat)
    requires Inv(r, s) && c < |s.clients| && Complete(r, s.clients[c]) && Live(r, d)
    ensures Inv(r, Copy(r, s, d))
  {
    var g := r.reference;
    var s' := Copy(r, s, d);
    assert Live(r, g);
    var w := AfterWriting(r, s, c);
    assert s'.drives[g] == s.drives[g];
    assert Wins(r, s', w);
    assert VersionIdentifies(r, s');
    assert AnswersMatch(r, s') by {
      assert forall o :: 0 <= o < |r.requests| ==> Wins(r, s', o) == Wins(r, s, o);
    }
    forall o | 0 <= o < |s'.clients| ensures PhaseOk(r, s', o) {
      CopyKeepsPhase(r, s, d, o);
    }
  }

  /** The compare-and-set of a repair has copied the reference slot and goes on with the next drive. */
  lemma {:induction false} RepairStepCopies<V(!new)>(r: Round<V>, s: State<V>, c: nat)
    requires Inv(r, s) && Enabled(r, s, Advance(c)) && s.clients[c].phase.CompareAndSet?
    ensures
      var ph := s.clients[c].phase;
      Step(r, s, Advance(c)) == SetPhase(Copy(r, s, ph.drive), c, Enforce(ph.reference, ph.drive + 1))
  {
    RepairWriteConverges(r, s, c);
  }

  lemma {:induction false} CopiedPhase<V(!new)>(r: Round<V>, s: State<V>, c: nat)
    requires Inv(r, s) && c < |s.clients| && s.clients[c].phase.CompareAndSet?
    ensures
      var ph := s.clients[c].phase;
      && Live(r, ph.drive) && Complete(r, s.clients[c])
      && Shape(r, SetPhase(Copy(r, s, ph.drive), c, Enforce(ph.reference, ph.drive + 1)))
      && PhaseOk(r, SetPhase(Copy(r, s, ph.drive), c, Enforce(ph.reference, ph.drive + 1)), c)
  {
    assert PhaseOk(r, s, c);
  }

  lemma {:induction false} CopiedKeepsInv<V(!new)>(r: Round<V>, s: State<V>, c: nat)
    requires Inv(r, s) && c < |s.clients| && s.clients[c].phase.CompareAndSet?
    ensures
      var ph := s.clients[c].phase;
      ph.drive < |s.drives| && Inv(r, SetPhase(Copy(r, s, ph.drive), c, Enforce(ph.reference, ph.drive + 1)))
  {
    var ph := s.clients[c].phase;
    CopiedPhase(r, s, c);
    CopyKeepsInv(r, s, c, ph.drive);
    SetPhaseKeepsInv(r, Copy(r, s, ph.drive), c, Enforce(ph.reference, ph.drive + 1));
  }

  lemma {:induction false} RepairStepKeepsInv<V(!new)>(r: Round<V>, s: State<V>, c: nat)
    requires Inv(r, s) && Enabled(r, s, Advance(c)) && s.clients[c].phase.CompareAndSet?
    ensures Inv(r, Step(r, s, Advance(c)))
  {
    RepairStepCopies(r, s, c);
    CopiedKeepsInv(r, s, c);
  }

  lemma {:induction false} StepKeepsInv<V(!new)>(r: Round<V>, s: State<V>, e: Event)
    requires Inv(r, s) && Enabled(r, s, e)
    ensures Inv(r, Step(r, s, e))
  {
    match e
    case Put(c, d) =>
      if s.drives[d].Version() == r.expected {
        SuccessfulPutKeepsInv(r, s, c, d);
      } else {
        FailedPutKeepsInv(r, s, c, d);
      }
    case Advance(c) =>
      if s.clients[c].phase.CompareAndSet? {
        RepairStepKeepsInv(r, s, c);
      } else {
        LocalStepKeepsInv(r, s, c);
      }
  }

  lemma {:induction false} RunKeepsInv<V(!new)>(r: Round<V>, s: State<V>, events: seq<Event>, s': State<V>)
    requires Inv(r, s) && Run(r, s, events, s')
    ensures Inv(r, s')
    decreases |events|
  {
    if events != [] {
      StepKeepsInv(r, s, events[0]);
      RunKeepsInv(r, Step(r, s, events[0]), events[1..], s');
    }
  }

  // ---------------------------------------------------------------------------------------------
  // The round's guarantees
  // ---------------------------------------------------------------------------------------------

  /** Whatever the interleaving: a finished client was told OK exactly when its record won on the first
      GREEN drive and a version mismatch otherwise, so two clients are never both told OK. */
  lemma {:induction false} AtMostOneWinner<V(!new)>(r: Round<V>, events: seq<Event>, s: State<V>)
    requires ValidRound(r) && Run(r, Initial(r), events, s)
    ensures |s.drives| == |r.statuses| && |s.clients| == |r.requests|
    ensures forall c :: 0 <= c < |s.clients| && s.clients[c].phase.Done? ==>
      s.clients[c].phase.status == if Wins(r, s, c) then Ok else VersionMismatch
    ensures forall c, c' :: 0 <= c < c' < |s.clients| ==>
      s.clients[c].phase.Done? && s.clients[c'].phase.Done? ==>
      !(s.clients[c].phase.status == Ok && s.clients[c'].phase.status == Ok)
  {
    InitialInv(r);
    RunKeepsInv(r, Initial(r), events, s);
    forall c | 0 <= c < |s.clients| && s.clients[c].phase.Done?
      ensures s.clients[c].phase.status == if Wins(r, s, c) then Ok else VersionMismatch
    {
      assert PhaseOk(r, s, c);
    }
    forall c, c' | 0 <= c < c' < |s.clients| && s.clients[c].phase.Done? && s.clients[c'].phase.Done?
      ensures !(s.clients[c].phase.status == Ok && s.clients[c'].phase.status == Ok)
    {
      assert r.requests[c].version != r.requests[c'].version;
    }
  }

  lemma {:induction false} StepKeepsWinner<V(!new)>(r: Round<V>, s: State<V>, e: Event, w: int)
    requires Inv(r, s) && Enabled(r, s, e) && Wins(r, s, w)
    ensures
      var s' := Step(r, s, e);
      |s'.drives| == |r.statuses| && Wins(r, s', w) && (Converged(r, s, w) ==> Converged(r, s', w))
  {
    assert Live(r, r.reference);
    if e.Advance? && s.clients[e.client].phase.CompareAndSet? {
      RepairWriteConverges(r, s, e.client);
    }
  }

  /** The client whose record is on the reference drive stays the winner until the end of the round. */
  lemma {:induction false} WinnerIsStable<V(!new)>(r: Round<V>, s: State<V>, events: seq<Event>, s': State<V>, w: int)
    requires Inv(r, s) && Run(r, s, events, s') && Wins(r, s, w)
    ensures |s'.drives| == |r.statuses| && Wins(r, s', w)
    ensures Converged(r, s, w) ==> Converged(r, s', w)
    decreases |events|
  {
    if events != [] {
      StepKeepsInv(r, s, events[0]);
      StepKeepsWinner(r, s, events[0], w);
      WinnerIsStable(r, Step(r, s, events[0]), events[1..], s', w);
    }
  }

  /** Once any client's repair has finished, every reachable drive holds the winner's record, and still
      does after any further steps of the round. */
  lemma {:induction false} RepairConverges<V(!new)>(
      r: Round<V>, before: seq<Event>, s: State<V>, c: int, after: seq<Event>, s': State<V>) returns (w: int)
    requires ValidRound(r) && Run(r, Initial(r), before, s) && Run(r, s, after, s')
    requires 0 <= c < |s.clients| && s.clients[c].phase.Done? && s.clients[c].phase.repaired
    ensures |s.drives| == |r.statuses| && |s'.drives| == |r.statuses|
    ensures Wins(r, s, w) && Converged(r, s, w) && Converged(r, s', w)
  {
    InitialInv(r);
    RunKeepsInv(r, Initial(r), before, s);
    assert PhaseOk(r, s, c);
    w := AfterWriting(r, s, c);
    WinnerIsStable(r, s, after, s', w);
  }

  /** When the round is over exactly one client was told OK and all reachable drives, YELLOW ones
      included, hold its record: the starting condition of the next round. */
  lemma {:induction false} RoundEndsConverged<V(!new)>(r: Round<V>, events: seq<Event>, s: State<V>) returns (w: int)
    requires ValidRound(r) && Run(r, Initial(r), events, s)
    requires |r.requests| > 0
    requires forall c :: 0 <= c < |s.clients| ==> s.clients[c].phase.Done?
    ensures |s.drives| == |r.statuses| && |s.clients| == |r.requests|
    ensures Converged(r, s, w)
    ensures forall c :: 0 <= c < |s.clients| ==> (s.clients[c].phase.status == Ok <==> c == w)
  {
    InitialInv(r);
    RunKeepsInv(r, Initial(r), events, s);
    var g := r.reference;
    assert Live(r, g);
    assert PhaseOk(r, s, 0);
    w := AfterWriting(r, s, 0);
    assert PhaseOk(r, s, w);
    forall c | 0 <= c < |s.clients| ensures s.clients[c].phase.status == Ok <==> c == w {
      assert PhaseOk(r, s, c);
    }
  }
}
