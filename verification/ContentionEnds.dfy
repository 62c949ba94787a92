/** A contention round comes to its end: no run is longer than a bound, and no client that has not finished is stuck. */
module ContentionEnds {
  import opened KineticStore
  import opened Replication
  import opened ContentionRound

  // ---------------------------------------------------------------------------------------------
  // Every step counts
  // ---------------------------------------------------------------------------------------------

  /** Drives whose answer a client does not have. */
  function Unanswered<V>(r: Round<V>, cl: Client<V>): set<int> {
    set d | 0 <= d < |r.statuses| && d !in cl.answers
  }

  /** How many steps a client may still take. */
  function StepsLeft<V>(r: Round<V>, cl: Client<V>): nat {
    var n := |r.statuses|;
    match cl.phase
    case Writing => |Unanswered(r, cl)| + 2 * n + 3
    case FetchReference => 2 * n + 2
    case Enforce(_, d) => if d < n then 2 * (n - d) + 1 else 1
    case CompareAndSet(_, d, _) => if d < n then 2 * (n - d) else 2
    case Done(_, _) => 0
  }

  function Total<V>(r: Round<V>, clients: seq<Client<V>>): nat {
    if clients == [] then 0 else StepsLeft(r, clients[0]) + Total(r, clients[1..])
  }

  lemma {:induction false} TotalUpdate<V>(r: Round<V>, clients: seq<Client<V>>, c: nat, cl: Client<V>)
    requires c < |clients|
    ensures Total(r, clients[c := cl]) == Total(r, clients) - StepsLeft(r, clients[c]) + StepsLeft(r, cl)
    decreases c
  {
    if c == 0 {
      assert clients[c := cl][1..] == clients[1..];
    } else {
      TotalUpdate(r, clients[1..], c - 1, cl);
      assert clients[c := cl][1..] == clients[1..][c - 1 := cl];
    }
  }

  lemma {:induction false} AnswerCounts<V>(r: Round<V>, cl: Client<V>, d: nat, answer: Status)
    requires d < |r.statuses| && d !in cl.answers
    ensures |Unanswered(r, cl.(answers := cl.answers[d := answer]))| < |Unanswered(r, cl)|
  {
    assert Unanswered(r, cl.(answers := cl.answers[d := answer])) == Unanswered(r, cl) - {d};
  }

  lemma {:induction false} StepCounts<V(!new)>(r: Round<V>, s: State<V>, e: Event)
    requires Live(r, r.reference) && Enabled(r, s, e)
    ensures
      var s' := Step(r, s, e);
      && s'.clients == s.clients[e.client := s'.clients[e.client]]
      && StepsLeft(r, s'.clients[e.client]) < StepsLeft(r, s.clients[e.client])
  {
    if e.Put? {
      AnswerCounts(r, s.clients[e.client], e.drive, PutStatus(s.drives[e.drive], r.expected, RequireSameVersion));
    }
  }

  lemma {:induction false} RunCounts<V(!new)>(r: Round<V>, s: State<V>, events: seq<Event>, s': State<V>)
    requires Live(r, r.reference) && Run(r, s, events, s')
    ensures |events| + Total(r, s'.clients) <= Total(r, s.clients)
    decreases |events|
  {
    if events != [] {
      var mid := Step(r, s, events[0]);
      StepCounts(r, s, events[0]);
      TotalUpdate(r, s.clients, events[0].client, mid.clients[events[0].client]);
      RunCounts(r, mid, events[1..], s');
    }
  }

  lemma {:induction false} InitialTotal<V>(r: Round<V>, clients: seq<Client<V>>)
    requires forall c :: 0 <= c < |clients| ==> clients[c] == Client(map[], Writing)
    ensures Total(r, clients) == |clients| * (3 * |r.statuses| + 3)
    decreases |clients|
  {
    if clients != [] {
      InitialTotal(r, clients[1..]);
      assert Unanswered(r, clients[0]) == Indices(|r.statuses|);
      Distributes(|clients| - 1, 3 * |r.statuses| + 3);
    }
  }

  lemma {:induction false} Distributes(n: nat, x: nat)
    ensures (n + 1) * x == x + n * x
  {}

  function Indices(n: nat): (r: set<int>)
    ensures |r| == n && forall d :: d in r <==> 0 <= d < n
  {
    if n == 0 then {} else Indices(n - 1) + {n - 1}
  }

  // ---------------------------------------------------------------------------------------------
  // Nobody is stuck
  // ---------------------------------------------------------------------------------------------

  lemma {:induction false} NotStuck<V(!new)>(r: Round<V>, s: State<V>, c: nat) returns (e: Event)
    requires Inv(r, s) && c < |s.clients| && !s.clients[c].phase.Done?
    ensures Enabled(r, s, e) && e.client == c
  {
    var cl := s.clients[c];
    assert PhaseOk(r, s, c);
    e := Advance(c);
    if cl.phase.Writing? && !Complete(r, cl) {
      var d :| 0 <= d < |r.statuses| && !r.statuses[d].Red? && d !in cl.answers;
      e := Put(c, d);
    }
  }

  /** No run of a round is longer than three steps per drive and client and three more per client; and a run that cannot
    go on has ended: every client was answered, exactly one of them with OK,
      and every reachable drive has its record. */
  lemma {:induction false} RoundEnds<V(!new)>(r: Round<V>, events: seq<Event>, s: State<V>) returns (w: int)
    requires ValidRound(r) && Run(r, Initial(r), events, s) && |r.requests| > 0
    ensures |events| <= |r.requests| * (3 * |r.statuses| + 3)
    ensures |s.drives| == |r.statuses| && |s.clients| == |r.requests|
    ensures (forall e :: !Enabled(r, s, e)) ==>
      && Converged(r, s, w)
      && forall c :: 0 <= c < |s.clients| ==>
        s.clients[c].phase.Done? && (s.clients[c].phase.status == Ok <==> c == w)
  {
    RunCounts(r, Initial(r), events, s);
    InitialTotal(r, Initial(r).clients);
    InitialInv(r);
    RunKeepsInv(r, Initial(r), events, s);
    w := 0;
    if forall e :: !Enabled(r, s, e) {
      forall c: nat | c < |s.clients| ensures s.clients[c].phase.Done? {
        if !s.clients[c].phase.Done? { var e := NotStuck(r, s, c); }
      }
      w := RoundEndsConverged(r, events, s);
    }
  }
}
