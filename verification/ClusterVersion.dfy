/** Publishing a partition map under a cluster version: clients put the same key on one drive after the other, each put
  succeeding only where the key does not exist yet. */
module ClusterVersion {

  type ClientId = nat
  type Drive = nat

  datatype Outcome = Running | Published | Failed

  /** The non-RED drives of the client's map, how many of them took the put, and how the publication ended. */
  datatype Client = Client(drives: seq<Drive>, done: nat, outcome: Outcome)

  /** holder is the client whose map a drive stores under the version. */
  datatype State = State(holder: map<Drive, ClientId>, clients: map<ClientId, Client>)

  datatype Event = PutNext(client: ClientId, reachable: bool) | Return(client: ClientId)

  predicate Enabled(s: State, e: Event) {
    && e.client in s.clients
    && var c := s.clients[e.client];
    c.outcome.Running? && if e.PutNext? then c.done < |c.drives| else c.done == |c.drives|
  }

  function Step(s: State, e: Event): State
    requires Enabled(s, e)
  {
    var c := s.clients[e.client];
    if e.Return? then s.(clients := s.clients[e.client := c.(outcome := Published)])
    else if !e.reachable || c.drives[c.done] in s.holder
      then s.(clients := s.clients[e.client := c.(outcome := Failed)])
    else State(s.holder[c.drives[c.done] := e.client], s.clients[e.client := c.(done := c.done + 1)])
  }

  ghost predicate Run(s: State, events: seq<Event>, s': State)
    decreases |events|
  {
    if events == [] then s' == s
    else Enabled(s, events[0]) && Run(Step(s, events[0]), events[1..], s')
  }

  /** Drives that took a client's put keep its map. */
  ghost predicate Inv(s: State) {
    forall i :: i in s.clients ==>
      var c := s.clients[i];
      && c.done <= |c.drives| && (c.outcome.Published? ==> c.done == |c.drives|)
      && forall k :: 0 <= k < c.done ==> c.drives[k] in s.holder && s.holder[c.drives[k]] == i
  }

  predicate Starting(s: State) {
    forall i :: i in s.clients ==> s.clients[i].done == 0 && s.clients[i].outcome.Running?
  }

  lemma {:induction false} StepKeepsInv(s: State, e: Event)
    requires Inv(s) && Enabled(s, e)
    ensures Inv(Step(s, e))
    ensures Step(s, e).clients.Keys == s.clients.Keys
    ensures forall i :: i in s.clients ==> Step(s, e).clients[i].drives == s.clients[i].drives
  {}

  lemma {:induction false} RunKeepsInv(s: State, events: seq<Event>, s': State)
    requires Inv(s) && Run(s, events, s')
    ensures Inv(s') && s'.clients.Keys == s.clients.Keys
    ensures forall i :: i in s.clients ==> s'.clients[i].drives == s.clients[i].drives
    decreases |events|
  {
    if events != [] {
      StepKeepsInv(s, events[0]);
      RunKeepsInv(Step(s, events[0]), events[1..], s');
    }
  }

  /** Clients whose maps share a drive cannot both publish under the same cluster version, under any interleaving and
    whatever the drives stored before. */
  lemma {:induction false} OnePublication(s: State, events: seq<Event>, s': State, i: ClientId, j: ClientId, d: Drive)
    requires Starting(s) && Run(s, events, s') && i in s.clients && j in s.clients && i != j
    requires d in s.clients[i].drives && d in s.clients[j].drives
    ensures i in s'.clients && j in s'.clients
    ensures !(s'.clients[i].outcome.Published? && s'.clients[j].outcome.Published?)
  {
    RunKeepsInv(s, events, s');
    var ci, cj := s'.clients[i], s'.clients[j];
    var k :| 0 <= k < |ci.drives| && ci.drives[k] == d;
    var l :| 0 <= l < |cj.drives| && cj.drives[l] == d;
    assert ci.outcome.Published? ==> s'.holder[ci.drives[k]] == i;
    assert cj.outcome.Published? ==> s'.holder[cj.drives[l]] == j;
  }

  // ---------------------------------------------------------------------------------------------
  // When a publication succeeds
  // ---------------------------------------------------------------------------------------------

  /** The drives behind the first k ones are free and different from each other. */
  ghost predicate FreeFrom(s: State, drives: seq<Drive>, k: nat) {
    && (forall l :: k <= l < |drives| ==> drives[l] !in s.holder)
    && (forall l, l' :: k <= l < l' < |drives| ==> drives[l] != drives[l'])
  }

  /** A client that nobody gets in the way of publishes on all of its drives and on no other. */
  lemma {:induction false} PublishAlone(s: State, i: ClientId) returns (events: seq<Event>, s': State)
    requires i in s.clients && s.clients[i].outcome.Running? && s.clients[i].done <= |s.clients[i].drives|
    requires FreeFrom(s, s.clients[i].drives, s.clients[i].done)
    ensures Run(s, events, s') && i in s'.clients && s'.clients[i].outcome.Published?
    ensures forall d :: d in s.clients[i].drives[s.clients[i].done..] ==> d in s'.holder && s'.holder[d] == i
    ensures forall d :: d !in s.clients[i].drives[s.clients[i].done..] ==>
      (d in s'.holder <==> d in s.holder) && (d in s.holder ==> s'.holder[d] == s.holder[d])
    decreases |s.clients[i].drives| - s.clients[i].done
  {
    var c := s.clients[i];
    if c.done == |c.drives| {
      s' := Step(s, Return(i));
      events := [Return(i)];
      assert events[1..] == [];
    } else {
      var e := PutNext(i, true);
      var mid := Step(s, e);
      var rest;
      rest, s' := PublishAlone(mid, i);
      events := [e] + rest;
      assert events[1..] == rest;
      assert c.drives[c.done..] == [c.drives[c.done]] + c.drives[c.done + 1..];
    }
  }

  /** A drive that has something under the version already refuses, whoever acts in between. */
  lemma {:induction false} HeldBlocks(s: State, events: seq<Event>, s': State, i: ClientId, k: nat)
    requires Run(s, events, s') && i in s.clients && s.clients[i].outcome.Running?
    requires s.clients[i].done <= k < |s.clients[i].drives| && s.clients[i].drives[k] in s.holder
    ensures i in s'.clients && !s'.clients[i].outcome.Published?
  {
    BlockedRun(s, events, s', i, k);
  }

  ghost predicate Blocked(s: State, i: ClientId, k: nat) {
    && i in s.clients && !s.clients[i].outcome.Published?
    && s.clients[i].done <= k < |s.clients[i].drives| && s.clients[i].drives[k] in s.holder
  }

  lemma {:induction false} BlockedRun(s: State, events: seq<Event>, s': State, i: ClientId, k: nat)
    requires Run(s, events, s') && Blocked(s, i, k)
    ensures Blocked(s', i, k)
    decreases |events|
  {
    if events != [] { BlockedRun(Step(s, events[0]), events[1..], s', i, k); }
  }

  /** A drive that cannot be reached ends the publication for good and stores nothing. */
  lemma {:induction false} UnreachableFails(s: State, i: ClientId, events: seq<Event>, s': State)
    requires Enabled(s, PutNext(i, false)) && Run(Step(s, PutNext(i, false)), events, s')
    ensures Step(s, PutNext(i, false)).holder == s.holder
    ensures i in s'.clients && s'.clients[i].outcome.Failed?
  {
    FailedStays(Step(s, PutNext(i, false)), events, s', i);
  }

  lemma {:induction false} FailedStays(s: State, events: seq<Event>, s': State, i: ClientId)
    requires Run(s, events, s') && i in s.clients && s.clients[i].outcome.Failed?
    ensures i in s'.clients && s'.clients[i].outcome.Failed?
    decreases |events|
  {
    if events != [] { FailedStays(Step(s, events[0]), events[1..], s', i); }
  }
}
