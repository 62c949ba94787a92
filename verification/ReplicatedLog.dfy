/** The database of hierarchical operations: numbered log entries, a version hint and a compaction snapshot in the
  shared store, folded by every client into its own in-memory map.

  Each client works sequentially; the store requests of all clients interleave freely. The version key is written
  without a version check, so it is a hint that may lag behind or move backwards.
 */
module ReplicatedLog {
  import opened Prelude
  import opened LogReplay

  type ClientId = nat

  const SNAPSHOT_INTERVAL := 42

  datatype Stored<S> = Stored(version: nat, content: S)

  /** The client's place in database_operation or database_update; pending is the entry an update is to be retried
    for. */
  datatype Phase<E> =
    | Idle
    | Put(entry: E)
    | Logged(entry: E)
    | Announced(entry: E)
    | Compacting
    | Behind(pending: Option<E>)
    | Probe(to: nat, pending: Option<E>)
    | Choose(to: nat, pending: Option<E>)
    | Fetch(to: nat, entries: seq<E>, pending: Option<E>)

  datatype Client<S, E> = Client(version: nat, content: S, phase: Phase<E>)

  datatype State<S, E> = State(
    log: map<nat, E>,
    versionKey: nat,
    stored: Option<Stored<S>>,
    clients: map<ClientId, Client<S, E>>)

  datatype Event<E> =
    | Mount(client: ClientId)
    | Operate(client: ClientId, entry: E)     // database_operation called
    | Update(client: ClientId)                // database_update called
    | PutEntry(client: ClientId, answered: bool)   // a put may take effect without its answer arriving
    | Announce(client: ClientId, ok: bool)    // the hint's put may fail, which is only a warning
    | ApplyOwn(client: ClientId)
    | StoreSnapshot(client: ClientId, ok: bool)
    | ReadVersion(client: ClientId)
    | ProbeNext(client: ClientId)
    | LoadOrSkip(client: ClientId, ok: bool)
    | FetchEntry(client: ClientId)
    | Finish(client: ClientId)
    | GiveUp(client: ClientId)                // a request failed and the error is returned to the caller

  /** How entries act on the clients' maps. */
  datatype Machine<!S, !E> = Machine(initial: S, apply: (S, nat, E) -> S)

  function Initial<S, E>(): State<S, E> {
    State(map[], 0, None, map[])
  }

  /** Includes the asserts the code makes: they end a client that would violate them. */
  predicate Enabled<S, E>(s: State<S, E>, e: Event<E>) {
    if e.Mount? then e.client !in s.clients
    else
      && e.client in s.clients
      && var c := s.clients[e.client];
      var p := c.phase;
      match e
      case Operate(_, _) => p.Idle?
      case Update(_) => p.Idle?
      case PutEntry(_, _) => p.Put?
      case Announce(_, _) => p.Logged?
      case ApplyOwn(_) => p.Announced?
      case StoreSnapshot(_, _) => p.Compacting?
      case ReadVersion(_) => p.Behind? && s.versionKey >= c.version
      case ProbeNext(_) => p.Probe?
      case LoadOrSkip(_, _) => p.Choose?
      case FetchEntry(_) => p.Fetch? && c.version + |p.entries| < p.to
      case Finish(_) => p.Fetch? && |p.entries| == p.to - c.version
      case GiveUp(_) => p.Put? || p.Behind? || p.Probe? || p.Fetch?
      case Mount(_) => false
  }

  function To<S, E>(s: State<S, E>, i: ClientId, c: Client<S, E>): State<S, E> {
    s.(clients := s.clients[i := c])
  }

  function Retry<E>(pending: Option<E>): Phase<E> {
    if pending.Some? then Put(pending.value) else Idle
  }

  function Step<S, E>(k: Machine<S, E>, s: State<S, E>, e: Event<E>): State<S, E>
    requires Enabled(s, e)
  {
    var i := e.client;
    if e.Mount? then To(s, i, Client(0, k.initial, Idle)) else
    var c := s.clients[i];
    var p := c.phase;
    match e
    case Mount(_) => s
    case Operate(_, entry) => To(s, i, c.(phase := Put(entry)))
    case Update(_) => To(s, i, c.(phase := Behind(None)))
    case PutEntry(_, answered) =>
      if c.version + 1 in s.log then To(s, i, c.(phase := Behind(Some(p.entry))))
      else To(s.(log := s.log[c.version + 1 := p.entry]), i, c.(phase := if answered then Logged(p.entry) else Idle))
    case Announce(_, ok) =>
      To(s.(versionKey := if ok then c.version + 1 else s.versionKey), i, c.(phase := Announced(p.entry)))
    case ApplyOwn(_) =>
      To(s, i, Client(c.version + 1, k.apply(c.content, c.version + 1, p.entry),
        if c.version % SNAPSHOT_INTERVAL == 0 then Compacting else Idle))
    case StoreSnapshot(_, ok) =>
      To(s.(stored := if ok then Some(Stored(c.version, c.content)) else s.stored), i, c.(phase := Idle))
    case ReadVersion(_) =>
      To(s, i, c.(phase := if s.versionKey == c.version then Probe(s.versionKey, p.pending)
        else Choose(s.versionKey, p.pending)))
    case ProbeNext(_) =>
      To(s, i, c.(phase := if p.to + 1 in s.log then Choose(p.to + 1, p.pending) else Idle))
    case LoadOrSkip(_, ok) =>
      if ok && p.to - c.version > SNAPSHOT_INTERVAL && s.stored.Some? && s.stored.value.version > c.version
      then To(s, i, Client(s.stored.value.version, s.stored.value.content, Fetch(p.to, [], p.pending)))
      else To(s, i, c.(phase := Fetch(p.to, [], p.pending)))
    case FetchEntry(_) =>
      var v := c.version + |p.entries| + 1;
      To(s, i, c.(phase := if v in s.log then p.(entries := p.entries + [s.log[v]]) else Idle))
    case Finish(_) =>
      To(s, i, Client(p.to, Replay(k.apply, c.content, c.version, p.entries), Retry(p.pending)))
    case GiveUp(_) => To(s, i, c.(phase := Idle))
  }

  ghost predicate Run<S, E>(k: Machine<S, E>, s: State<S, E>, events: seq<Event<E>>, s': State<S, E>)
    decreases |events|
  {
    if events == [] then s' == s
    else Enabled(s, events[0]) && Run(k, Step(k, s, events[0]), events[1..], s')
  }

  // ---------------------------------------------------------------------------------------------
  // What every step keeps
  // ---------------------------------------------------------------------------------------------

  /** The log keys in the store hold exactly these entries: entry i under version i + 1, with no gap. */
  ghost predicate Holds<E(!new)>(log: map<nat, E>, entries: seq<E>) {
    && (forall v: nat :: v in log <==> 1 <= v <= |entries|)
    && (forall v: nat :: v in log ==> log[v] == entries[v - 1])
  }

  /** The map of database version v. */
  ghost function Fold<S, E>(k: Machine<S, E>, entries: seq<E>, v: nat): S
    requires v <= |entries|
  {
    Replay(k.apply, k.initial, 0, entries[..v])
  }

  ghost predicate PhaseOk<E>(entries: seq<E>, version: nat, p: Phase<E>) {
    match p
    case Idle => true
    case Put(_) => true
    case Logged(e) => version < |entries| && entries[version] == e
    case Announced(e) => version < |entries| && entries[version] == e
    case Compacting => true
    case Behind(_) => true
    case Probe(to, _) => to <= |entries|
    case Choose(to, _) => to <= |entries|
    case Fetch(to, fetched, _) =>
      to <= |entries| && version + |fetched| <= |entries| && fetched == entries[version..version + |fetched|]
  }

  ghost predicate ClientOk<S, E>(k: Machine<S, E>, entries: seq<E>, c: Client<S, E>) {
    c.version <= |entries| && c.content == Fold(k, entries, c.version) && PhaseOk(entries, c.version, c.phase)
  }

  ghost predicate SnapshotOk<S, E>(k: Machine<S, E>, entries: seq<E>, stored: Option<Stored<S>>) {
    stored.Some? ==> stored.value.version <= |entries| && stored.value.content == Fold(k, entries, stored.value.version)
  }

  ghost predicate ClientsOk<S, E>(k: Machine<S, E>, entries: seq<E>, clients: map<ClientId, Client<S, E>>) {
    forall i :: i in clients ==> ClientOk(k, entries, clients[i])
  }

  ghost predicate Inv<S, E(!new)>(k: Machine<S, E>, entries: seq<E>, s: State<S, E>) {
    && Holds(s.log, entries)
    && s.versionKey <= |entries|
    && SnapshotOk(k, entries, s.stored)
    && ClientsOk(k, entries, s.clients)
  }

  lemma {:induction false} FoldStable<S, E>(k: Machine<S, E>, entries: seq<E>, e: E, v: nat)
    requires v <= |entries|
    ensures Fold(k, entries + [e], v) == Fold(k, entries, v)
  {
    assert (entries + [e])[..v] == entries[..v];
  }

  lemma {:induction false} PhaseStable<E>(entries: seq<E>, e: E, version: nat, p: Phase<E>)
    requires PhaseOk(entries, version, p)
    ensures PhaseOk(entries + [e], version, p)
  {
    if p.Fetch? {
      assert (entries + [e])[version..version + |p.entries|] == entries[version..version + |p.entries|];
    }
  }

  /** Appending to the log disturbs no client. */
  lemma {:induction false} ClientsStable<S, E>(
      k: Machine<S, E>, entries: seq<E>, e: E, clients: map<ClientId, Client<S, E>>)
    requires ClientsOk(k, entries, clients)
    ensures ClientsOk(k, entries + [e], clients)
  {
    forall i | i in clients ensures ClientOk(k, entries + [e], clients[i]) {
      assert ClientOk(k, entries, clients[i]);
      FoldStable(k, entries, e, clients[i].version);
      PhaseStable(entries, e, clients[i].version, clients[i].phase);
    }
  }

  lemma {:induction false} HoldsAppended<E(!new)>(log: map<nat, E>, entries: seq<E>, e: E)
    requires Holds(log, entries)
    ensures Holds(log[|entries| + 1 := e], entries + [e])
  {}

  /** A client that is up to date with v and replays the following entries is up to date with those. */
  lemma {:induction false} FoldFurther<S, E>(k: Machine<S, E>, entries: seq<E>, v: nat, to: nat)
    requires v <= to <= |entries|
    ensures Replay(k.apply, Fold(k, entries, v), v, entries[v..to]) == Fold(k, entries, to)
  {
    ReplayConcat(k.apply, k.initial, 0, entries[..v], entries[v..to]);
    assert entries[..v] + entries[v..to] == entries[..to];
  }

  lemma {:induction false} FoldNext<S, E>(k: Machine<S, E>, entries: seq<E>, v: nat)
    requires v < |entries|
    ensures Fold(k, entries, v + 1) == k.apply(Fold(k, entries, v), v + 1, entries[v])
  {
    assert entries[..v + 1] == entries[..v] + [entries[v]];
    ReplayOne(k.apply, k.initial, 0, entries[..v], entries[v]);
  }

  /** Steps that leave the log alone only have to justify the moving client. */
  lemma {:induction false} LocalStepKeepsInv<S, E(!new)>(
      k: Machine<S, E>, entries: seq<E>, s: State<S, E>, s': State<S, E>, i: ClientId)
    requires Inv(k, entries, s) && s'.log == s.log && s'.versionKey <= |entries| && SnapshotOk(k, entries, s'.stored)
    requires i in s'.clients && s'.clients == s.clients[i := s'.clients[i]] && ClientOk(k, entries, s'.clients[i])
    ensures Inv(k, entries, s')
  {}

  /** Only a put on the slot after the last one enters the log, because a client is never ahead of the log. */
  lemma {:induction false} PutKeepsInv<S, E(!new)>(k: Machine<S, E>, entries: seq<E>, s: State<S, E>, e: Event<E>)
    returns (entries': seq<E>)
    requires Inv(k, entries, s) && Enabled(s, e) && e.PutEntry?
    ensures entries <= entries' && Inv(k, entries', Step(k, s, e))
  {
    var c := s.clients[e.client];
    var s' := Step(k, s, e);
    assert ClientOk(k, entries, c);
    if c.version + 1 in s.log {
      entries' := entries;
      LocalStepKeepsInv(k, entries, s, s', e.client);
    } else {
      var x := c.phase.entry;
      entries' := entries + [x];
      HoldsAppended(s.log, entries, x);
      ClientsStable(k, entries, x, s.clients);
      if s.stored.Some? { FoldStable(k, entries, x, s.stored.value.version); }
      var mid := s.(log := s'.log);
      assert Inv(k, entries', mid);
      assert ClientOk(k, entries', c);
      LocalStepKeepsInv(k, entries', mid, s', e.client);
    }
  }

  lemma {:induction false} ApplyOwnKeepsInv<S, E(!new)>(k: Machine<S, E>, entries: seq<E>, s: State<S, E>, e: Event<E>)
    requires Inv(k, entries, s) && Enabled(s, e) && e.ApplyOwn?
    ensures Inv(k, entries, Step(k, s, e))
  {
    var c := s.clients[e.client];
    assert ClientOk(k, entries, c);
    FoldNext(k, entries, c.version);
    LocalStepKeepsInv(k, entries, s, Step(k, s, e), e.client);
  }

  lemma {:induction false} FetchKeepsInv<S, E(!new)>(k: Machine<S, E>, entries: seq<E>, s: State<S, E>, e: Event<E>)
    requires Inv(k, entries, s) && Enabled(s, e) && e.FetchEntry?
    ensures Inv(k, entries, Step(k, s, e))
  {
    var c := s.clients[e.client];
    assert ClientOk(k, entries, c);
    var v := c.version + |c.phase.entries|;
    assert entries[c.version..v + 1] == entries[c.version..v] + [entries[v]];
    LocalStepKeepsInv(k, entries, s, Step(k, s, e), e.client);
  }

  lemma {:induction false} FinishKeepsInv<S, E(!new)>(k: Machine<S, E>, entries: seq<E>, s: State<S, E>, e: Event<E>)
    requires Inv(k, entries, s) && Enabled(s, e) && e.Finish?
    ensures Inv(k, entries, Step(k, s, e))
  {
    var c := s.clients[e.client];
    assert ClientOk(k, entries, c);
    FoldFurther(k, entries, c.version, c.phase.to);
    LocalStepKeepsInv(k, entries, s, Step(k, s, e), e.client);
  }

  lemma {:induction false} StepKeepsInv<S, E(!new)>(k: Machine<S, E>, entries: seq<E>, s: State<S, E>, e: Event<E>)
    returns (entries': seq<E>)
    requires Inv(k, entries, s) && Enabled(s, e)
    ensures entries <= entries' && Inv(k, entries', Step(k, s, e))
  {
    entries' := entries;
    if e.PutEntry? {
      entries' := PutKeepsInv(k, entries, s, e);
    } else if e.ApplyOwn? {
      ApplyOwnKeepsInv(k, entries, s, e);
    } else if e.FetchEntry? {
      FetchKeepsInv(k, entries, s, e);
    } else if e.Finish? {
      FinishKeepsInv(k, entries, s, e);
    } else {
      if e.client in s.clients { assert ClientOk(k, entries, s.clients[e.client]); }
      assert entries[..0] == [];
      LocalStepKeepsInv(k, entries, s, Step(k, s, e), e.client);
    }
  }

  lemma {:induction false} RunKeepsInv<S, E(!new)>(
      k: Machine<S, E>, entries: seq<E>, s: State<S, E>, events: seq<Event<E>>, s': State<S,
        E>) returns (entries': seq<E>)
    requires Inv(k, entries, s) && Run(k, s, events, s')
    ensures entries <= entries' && Inv(k, entries', s')
    decreases |events|
  {
    entries' := entries;
    if events != [] {
      entries' := StepKeepsInv(k, entries, s, events[0]);
      entries' := RunKeepsInv(k, entries', Step(k, s, events[0]), events[1..], s');
    }
  }

  // ---------------------------------------------------------------------------------------------
  // What holds of every run
  // ---------------------------------------------------------------------------------------------

  ghost predicate Reachable<S, E(!new)>(k: Machine<S, E>, s: State<S, E>) {
    exists events :: Run(k, Initial(), events, s)
  }

  lemma {:induction false} ReachableInv<S, E(!new)>(k: Machine<S, E>, s: State<S, E>) returns (entries: seq<E>)
    requires Reachable(k, s)
    ensures Inv(k, entries, s)
  {
    var events :| Run(k, Initial<S, E>(), events, s);
    entries := RunKeepsInv(k, [], Initial<S, E>(), events, s);
  }

  /** The log grows without gaps, no slot changes once written, and neither the version hint, the stored snapshot nor
    any client is ever ahead of the log. */
  lemma {:induction false} LogIsAppendOnly<S, E(!new)>(
      k: Machine<S, E>, s: State<S, E>, events: seq<Event<E>>, s': State<S, E>)
    requires Reachable(k, s) && Run(k, s, events, s')
    ensures forall v: nat :: v in s.log ==> v in s'.log && s'.log[v] == s.log[v]
    ensures forall v: nat, w: nat :: v in s'.log && 1 <= w <= v ==> w in s'.log
    ensures 0 !in s'.log
    ensures s'.versionKey > 0 ==> s'.versionKey in s'.log
    ensures s'.stored.Some? && s'.stored.value.version > 0 ==> s'.stored.value.version in s'.log
    ensures forall i :: i in s'.clients && s'.clients[i].version > 0 ==> s'.clients[i].version in s'.log
  {
    var entries := ReachableInv(k, s);
    var entries' := RunKeepsInv(k, entries, s, events, s');
    forall i | i in s'.clients ensures s'.clients[i].version <= |entries'| {
      assert ClientOk(k, entries', s'.clients[i]);
    }
  }

  /** Every client's map is the fold of exactly the log entries up to its version, so clients at equal versions have
    equal maps, and so does the stored snapshot: loading it and replaying the rest of the log is a full replay. */
  lemma {:induction false} ClientsAgree<S, E(!new)>(k: Machine<S, E>, s: State<S, E>, i: ClientId)
    returns (entries: seq<E>)
    requires Reachable(k, s) && i in s.clients
    ensures Holds(s.log, entries) && s.clients[i].version <= |entries|
    ensures s.clients[i].content == Replay(k.apply, k.initial, 0, entries[..s.clients[i].version])
    ensures forall j :: j in s.clients && s.clients[j].version == s.clients[i].version ==>
      s.clients[j].content == s.clients[i].content
    ensures s.stored.Some? && s.stored.value.version <= s.clients[i].version ==>
      s.clients[i].content == Replay(k.apply, s.stored.value.content, s.stored.value.version,
        entries[s.stored.value.version..s.clients[i].version])
  {
    entries := ReachableInv(k, s);
    assert ClientOk(k, entries, s.clients[i]);
    forall j | j in s.clients && s.clients[j].version == s.clients[i].version
      ensures s.clients[j].content == s.clients[i].content {
      assert ClientOk(k, entries, s.clients[j]);
    }
    if s.stored.Some? && s.stored.value.version <= s.clients[i].version {
      FoldFurther(k, entries, s.stored.value.version, s.clients[i].version);
    }
  }

  /** Agreement also holds across time: a client that reaches a version later gets the map another one had earlier. */
  lemma {:induction false} ClientsAgreeOverTime<S, E(!new)>(
      k: Machine<S, E>, s: State<S, E>, events: seq<Event<E>>, s': State<S, E>, i: ClientId, j: ClientId)
    requires Reachable(k, s) && Run(k, s, events, s') && i in s.clients && j in s'.clients
    requires s.clients[i].version == s'.clients[j].version
    ensures s.clients[i].content == s'.clients[j].content
  {
    var entries := ReachableInv(k, s);
    var entries' := RunKeepsInv(k, entries, s, events, s');
    assert ClientOk(k, entries, s.clients[i]) && ClientOk(k, entries', s'.clients[j]);
    var v := s.clients[i].version;
    assert entries'[..v] == entries[..v];
  }
}
