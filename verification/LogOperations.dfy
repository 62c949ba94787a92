/** What becomes of logged operations: none is lost, none enters the log twice, and when one that is not disturbed gets
  there.
 */
module LogOperations {
  import opened Prelude
  import opened LogReplay
  import opened ReplicatedLog

  // ---------------------------------------------------------------------------------------------
  // Every operation has one fate
  // ---------------------------------------------------------------------------------------------

  /** The operation a client still has to log, as a sequence of at most one entry. */
  function Unlogged<E>(p: Phase<E>): seq<E> {
    match p
    case Put(e) => [e]
    case Behind(pending) => Listed(pending)
    case Probe(_, pending) => Listed(pending)
    case Choose(_, pending) => Listed(pending)
    case Fetch(_, _, pending) => Listed(pending)
    case _ => []
  }

  function Listed<E>(pending: Option<E>): seq<E> {
    if pending.Some? then [pending.value] else []
  }

  function UnloggedBy<S, E>(s: State<S, E>, i: ClientId): seq<E> {
    if i in s.clients then Unlogged(s.clients[i].phase) else []
  }

  /** An operation ends in a slot of the log, or is given up with an error. */
  datatype Fate<E> = Entered(client: ClientId, entry: E, slot: nat) | Abandoned(client: ClientId, entry: E)

  /** Operations are given up by a failed request and by an update that finds nothing new, and by nothing else. */
  predicate GivesUp<S, E>(s: State<S, E>, e: Event<E>)
    requires Enabled(s, e)
  {
    match e
    case GiveUp(_) => true
    case ProbeNext(i) => s.clients[i].phase.to + 1 !in s.log
    case FetchEntry(i) => s.clients[i].version + |s.clients[i].phase.entries| + 1 !in s.log
    case _ => false
  }

  /** What a step decides. */
  function Decided<S, E>(s: State<S, E>, e: Event<E>): seq<Fate<E>>
    requires Enabled(s, e)
  {
    if e.PutEntry? && s.clients[e.client].version + 1 !in s.log then
      [Entered(e.client, s.clients[e.client].phase.entry, s.clients[e.client].version + 1)]
    else if GivesUp(s, e) && UnloggedBy(s, e.client) != [] then [Abandoned(e.client, UnloggedBy(s, e.client)[0])]
    else []
  }

  ghost function Fates<S, E>(k: Machine<S, E>, s: State<S, E>, events: seq<Event<E>>, s': State<S, E>): seq<Fate<E>>
    requires Run(k, s, events, s')
    decreases |events|
  {
    if events == [] then [] else Decided(s, events[0]) + Fates(k, Step(k, s, events[0]), events[1..], s')
  }

  /** The operations of client i among some fates, in order. */
  function Of<E>(fates: seq<Fate<E>>, i: ClientId): seq<E> {
    if fates == [] then []
    else (if fates[0].client == i then [fates[0].entry] else []) + Of(fates[1..], i)
  }

  /** The operations client i was asked for. */
  function Asked<E>(events: seq<Event<E>>, i: ClientId): seq<E> {
    if events == [] then []
    else (if events[0].Operate? && events[0].client == i then [events[0].entry] else []) + Asked(events[1..], i)
  }

  lemma {:induction false} OfConcat<E>(a: seq<Fate<E>>, b: seq<Fate<E>>, i: ClientId)
    ensures Of(a + b, i) == Of(a, i) + Of(b, i)
    decreases |a|
  {
    if a == [] {
      assert a + b == b;
    } else {
      OfConcat(a[1..], b, i);
      assert (a + b)[1..] == a[1..] + b && (a + b)[0] == a[0];
      var head := if a[0].client == i then [a[0].entry] else [];
      assert Of(a, i) == head + Of(a[1..], i) && Of(a + b, i) == head + Of((a + b)[1..], i);
      assert head + (Of(a[1..], i) + Of(b, i)) == (head + Of(a[1..], i)) + Of(b, i);
    }
  }

  lemma {:induction false} OtherAccounts<S, E>(k: Machine<S, E>, s: State<S, E>, e: Event<E>, i: ClientId)
    requires Enabled(s, e) && e.client != i
    ensures Of(Decided(s, e), i) == [] && UnloggedBy(Step(k, s, e), i) == UnloggedBy(s, i)
  {
    var d := Decided(s, e);
    if d != [] { assert d[1..] == []; }
  }

  lemma {:induction false} OwnAccounts<S, E>(k: Machine<S, E>, s: State<S, E>, e: Event<E>)
    requires Enabled(s, e)
    ensures
      var i := e.client;
      UnloggedBy(s, i) + (if e.Operate? then [e.entry] else [])
      == (if Decided(s, e) == [] then [] else [Decided(s, e)[0].entry]) + UnloggedBy(Step(k, s, e), i)
  {}

  lemma {:induction false} StepAccounts<S, E>(k: Machine<S, E>, s: State<S, E>, e: Event<E>, i: ClientId)
    requires Enabled(s, e)
    ensures
      UnloggedBy(s, i) + (if e.Operate? && e.client == i then [e.entry] else [])
      == Of(Decided(s, e), i) + UnloggedBy(Step(k, s, e), i)
  {
    if e.client == i {
      var d := Decided(s, e);
      OwnAccounts(k, s, e);
      if d != [] { assert d == [d[0]] && d[1..] == []; }
    } else {
      OtherAccounts(k, s, e, i);
    }
  }

  /** Every operation a client was asked for has entered the log in one slot or was given up, in the order in which it
    was asked for them, or it is the one the client is working on. */
  lemma {:induction false} RunAccounts<S, E>(
      k: Machine<S, E>, s: State<S, E>, events: seq<Event<E>>, s': State<S, E>, i: ClientId)
    requires Run(k, s, events, s')
    ensures UnloggedBy(s, i) + Asked(events, i) == Of(Fates(k, s, events, s'), i) + UnloggedBy(s', i)
    decreases |events|
  {
    if events != [] {
      var e, mid := events[0], Step(k, s, events[0]);
      StepAccounts(k, s, e, i);
      RunAccounts(k, mid, events[1..], s', i);
      OfConcat(Decided(s, e), Fates(k, mid, events[1..], s'), i);
      Regrouped(UnloggedBy(s, i), if e.Operate? && e.client == i then [e.entry] else [], Of(Decided(s, e), i),
        UnloggedBy(mid, i), Asked(events[1..], i), Of(Fates(k, mid, events[1..], s'), i), UnloggedBy(s', i));
    }
  }

  lemma {:induction false} Regrouped<E>(
      before: seq<E>, asked: seq<E>, done: seq<E>, mid: seq<E>, later: seq<E>, rest: seq<E>, after: seq<E>)
    requires before + asked == done + mid && mid + later == rest + after
    ensures before + (asked + later) == (done + rest) + after
  {
    assert before + (asked + later) == (before + asked) + later;
    assert (done + mid) + later == done + (mid + later);
  }

  /** The slots that were filled, in order. */
  function Slots<E>(fates: seq<Fate<E>>): seq<(nat, E)> {
    if fates == [] then []
    else (if fates[0].Entered? then [(fates[0].slot, fates[0].entry)] else []) + Slots(fates[1..])
  }

  /** The log with these slots filled. */
  function Filled<E>(log: map<nat, E>, slots: seq<(nat, E)>): map<nat, E>
    decreases |slots|
  {
    if slots == [] then log else Filled(log[slots[0].0 := slots[0].1], slots[1..])
  }

  /** No slot was filled before. */
  predicate AllFree<E>(log: map<nat, E>, slots: seq<(nat, E)>)
    decreases |slots|
  {
    slots == [] || (slots[0].0 !in log && AllFree(log[slots[0].0 := slots[0].1], slots[1..]))
  }

  lemma {:induction false} SlotsConcat<E>(a: seq<Fate<E>>, b: seq<Fate<E>>)
    ensures Slots(a + b) == Slots(a) + Slots(b)
    decreases |a|
  {
    if a == [] {
      assert a + b == b;
    } else {
      SlotsConcat(a[1..], b);
      assert (a + b)[1..] == a[1..] + b && (a + b)[0] == a[0];
      var head := if a[0].Entered? then [(a[0].slot, a[0].entry)] else [];
      assert Slots(a) == head + Slots(a[1..]) && Slots(a + b) == head + Slots((a + b)[1..]);
      assert head + (Slots(a[1..]) + Slots(b)) == (head + Slots(a[1..])) + Slots(b);
    }
  }

  lemma {:induction false} StepFills<S, E>(k: Machine<S, E>, s: State<S, E>, e: Event<E>)
    requires Enabled(s, e)
    ensures
      var slots := Slots(Decided(s, e));
      Step(k, s, e).log == Filled(s.log, slots) && AllFree(s.log, slots) && |slots| <= 1
  {
    var d := Decided(s, e);
    if d != [] {
      assert d[1..] == [];
      if d[0].Entered? {
        assert Slots(d) == [(d[0].slot, d[0].entry)];
        assert Slots(d)[1..] == [];
      }
    }
  }

  lemma {:induction false} FillsFurther<E>(log: map<nat, E>, first: seq<(nat, E)>, rest: seq<(nat, E)>)
    requires |first| <= 1 && AllFree(log, first) && AllFree(Filled(log, first), rest)
    ensures Filled(log, first + rest) == Filled(Filled(log, first), rest) && AllFree(log, first + rest)
  {
    if first == [] {
      assert first + rest == rest;
    } else {
      assert first[1..] == [] && (first + rest)[1..] == rest;
    }
  }

  /** The log is what operations entered it, each into a slot that was free at its turn. */
  lemma {:induction false} RunFills<S, E>(
      k: Machine<S, E>, s: State<S, E>, events: seq<Event<E>>, s': State<S, E>)
    requires Run(k, s, events, s')
    ensures
      var slots := Slots(Fates(k, s, events, s'));
      s'.log == Filled(s.log, slots) && AllFree(s.log, slots)
    decreases |events|
  {
    if events != [] {
      var mid := Step(k, s, events[0]);
      StepFills(k, s, events[0]);
      RunFills(k, mid, events[1..], s');
      var d, rest := Decided(s, events[0]), Fates(k, mid, events[1..], s');
      SlotsConcat(d, rest);
      FillsFurther(s.log, Slots(d), Slots(rest));
    }
  }

  /** In every run, the operations each client was asked for are those that entered the log or were given up, and the
    one it is working on; and the log consists of those that entered, each in one slot of its own. */
  lemma {:induction false} OperationsEnterOnce<S, E>(
      k: Machine<S, E>, events: seq<Event<E>>, s: State<S, E>) returns (fates: seq<Fate<E>>)
    requires Run(k, Initial(), events, s)
    ensures forall i :: Asked(events, i) == Of(fates, i) + UnloggedBy(s, i)
    ensures s.log == Filled(map[], Slots(fates)) && AllFree(map[], Slots(fates))
  {
    fates := Fates(k, Initial<S, E>(), events, s);
    forall i ensures Asked(events, i) == Of(fates, i) + UnloggedBy(s, i) {
      RunAccounts(k, Initial<S, E>(), events, s, i);
    }
    RunFills(k, Initial<S, E>(), events, s);
  }

  // ---------------------------------------------------------------------------------------------
  // An operation that nobody disturbs
  // ---------------------------------------------------------------------------------------------

  /** Requests of one client, none of which starts another operation. */
  predicate OwnRequests<E>(events: seq<Event<E>>, i: ClientId) {
    forall j :: 0 <= j < |events| ==> events[j].client == i && !events[j].Operate?
  }

  lemma {:induction false} RunFirst<S, E>(
      k: Machine<S, E>, s: State<S, E>, e: Event<E>, rest: seq<Event<E>>, s': State<S, E>)
    requires Enabled(s, e) && Run(k, Step(k, s, e), rest, s')
    ensures Run(k, s, [e] + rest, s')
  {
    assert ([e] + rest)[1..] == rest;
  }

  lemma {:induction false} RunOn<S, E>(k: Machine<S, E>, s: State<S, E>, first: seq<Event<E>>, mid: State<S, E>,
      rest: seq<Event<E>>, s': State<S, E>)
    requires Run(k, s, first, mid) && Run(k, mid, rest, s')
    ensures Run(k, s, first + rest, s')
    decreases |first|
  {
    if first == [] {
      assert first + rest == rest;
    } else {
      RunOn(k, Step(k, s, first[0]), first[1..], mid, rest, s');
      assert (first + rest)[1..] == first[1..] + rest;
    }
  }

  /** The client alone has moved on, the store is the same. */
  ghost predicate OnlyClient<S, E>(s: State<S, E>, s': State<S, E>, i: ClientId, version: nat, p: Phase<E>) {
    && s'.log == s.log && s'.versionKey == s.versionKey && s'.stored == s.stored
    && i in s'.clients && s'.clients[i].version == version && s'.clients[i].phase == p
  }

  function Fetches<E>(events: seq<Event<E>>): nat {
    if events == [] then 0 else (if events[0].FetchEntry? then 1 else 0) + Fetches(events[1..])
  }

  lemma {:induction false} FetchesFirst<E>(e: Event<E>, rest: seq<Event<E>>)
    ensures Fetches([e] + rest) == (if e.FetchEntry? then 1 else 0) + Fetches(rest)
  {
    assert ([e] + rest)[1..] == rest;
  }

  /** Fetching entry after entry. */
  lemma {:induction false} FetchAll<S, E>(k: Machine<S, E>, s: State<S, E>, i: ClientId, n: nat)
    returns (events: seq<Event<E>>, s': State<S, E>)
    requires i in s.clients && s.clients[i].phase.Fetch?
    requires n == s.clients[i].phase.to - s.clients[i].version - |s.clients[i].phase.entries|
    requires forall v: nat :: 1 <= v <= s.clients[i].phase.to ==> v in s.log
    ensures OwnRequests(events, i) && Run(k, s, events, s')
    ensures OnlyClient(s, s', i, s.clients[i].phase.to, Retry(s.clients[i].phase.pending)) && Fetches(events) == n
    decreases n
  {
    if n == 0 {
      s' := Step(k, s, Finish(i));
      events := [Finish(i)] + [];
      RunFirst(k, s, Finish(i), [], s');
      FetchesFirst<E>(Finish(i), []);
    } else {
      var mid := Step(k, s, FetchEntry(i));
      var rest;
      rest, s' := FetchAll(k, mid, i, n - 1);
      events := [FetchEntry(i)] + rest;
      RunFirst(k, s, FetchEntry(i), rest, s');
      FetchesFirst(FetchEntry(i), rest);
    }
  }

  /** Where fetching starts: behind the stored snapshot, if that can be loaded, is newer than the client's map and the
    client is more than 42 entries behind. */
  function StartsAt<S, E>(s: State<S, E>, i: ClientId, to: nat, load: bool): nat
    requires i in s.clients
  {
    if load && to > s.clients[i].version + 42 && s.stored.Some? then Max(s.stored.value.version, s.clients[i].version)
    else s.clients[i].version
  }

  /** Catching up with version `to`, by way of the stored snapshot if that can be loaded and is not beyond it. */
  lemma {:induction false} CatchUp<S, E>(k: Machine<S, E>, s: State<S, E>, i: ClientId, load: bool)
    returns (events: seq<Event<E>>, s': State<S, E>)
    requires i in s.clients && s.clients[i].phase.Choose? && s.clients[i].version <= s.clients[i].phase.to
    requires load && s.stored.Some? ==> s.stored.value.version <= s.clients[i].phase.to
    requires forall v: nat :: 1 <= v <= s.clients[i].phase.to ==> v in s.log
    ensures OwnRequests(events, i) && Run(k, s, events, s')
    ensures OnlyClient(s, s', i, s.clients[i].phase.to, Retry(s.clients[i].phase.pending))
    ensures Fetches(events) == s.clients[i].phase.to - StartsAt(s, i, s.clients[i].phase.to, load)
  {
    var e: Event<E> := LoadOrSkip(i, load);
    var mid, rest := Step(k, s, e), [];
    rest, s' := FetchAll(k, mid, i, s.clients[i].phase.to - mid.clients[i].version);
    events := [e] + rest;
    RunFirst(k, s, e, rest, s');
    FetchesFirst(e, rest);
  }

  /** What a client catches up with after it lost its slot. */
  function Goal<S, E>(s: State<S, E>, i: ClientId): nat
    requires i in s.clients
  {
    if s.versionKey == s.clients[i].version then s.versionKey + 1 else s.versionKey
  }

  ghost predicate FullUpTo<E(!new)>(log: map<nat, E>, to: nat) {
    forall v: nat :: 1 <= v <= to ==> v in log
  }

  /** Reading the version key, and probing for one more entry if it says nothing new. */
  lemma {:induction false} FindGoal<S, E(!new)>(k: Machine<S, E>, s: State<S, E>, i: ClientId)
    returns (events: seq<Event<E>>, s': State<S, E>)
    requires i in s.clients && s.clients[i].phase.Behind? && s.clients[i].version <= s.versionKey
    requires s.clients[i].version + 1 in s.log
    ensures OwnRequests(events, i) && Run(k, s, events, s')
    ensures OnlyClient(s, s', i, s.clients[i].version, Choose(Goal(s, i), s.clients[i].phase.pending))
  {
    var e: Event<E> := ReadVersion(i);
    var mid := Step(k, s, e);
    if s.versionKey == s.clients[i].version {
      var e': Event<E> := ProbeNext(i);
      s' := Step(k, mid, e');
      events := [e, e'];
      RunFirst(k, mid, e', [], s');
      RunFirst(k, s, e, [e'], s');
    } else {
      s' := mid;
      events := [e];
      RunFirst(k, s, e, [], s');
    }
  }

  /** An update that nobody disturbs takes a client that is behind to the version the version key names, or one further
    than its own if the key names that; a client that is up to date stays where it is. */
  lemma {:induction false} UpdateAlone<S, E(!new)>(k: Machine<S, E>, s: State<S, E>, i: ClientId, load: bool)
    returns (events: seq<Event<E>>, s': State<S, E>)
    requires Reachable(k, s) && i in s.clients && s.clients[i].phase.Idle? && s.clients[i].version <= s.versionKey
    requires load && s.stored.Some? ==> s.stored.value.version <= Goal(s, i)
    ensures OwnRequests(events, i) && Run(k, s, events, s')
    ensures OnlyClient(s, s', i, if s.clients[i].version + 1 in s.log then Goal(s, i) else s.clients[i].version, Idle)
  {
    var entries := ReachableInv(k, s);
    assert ClientOk(k, entries, s.clients[i]);
    var e: Event<E> := Update(i);
    var s1 := Step(k, s, e);
    if s.clients[i].version + 1 in s.log {
      var find, s2 := FindGoal(k, s1, i);
      var fetch;
      fetch, s' := CatchUp(k, s2, i, load);
      RunOn(k, s1, find, s2, fetch, s');
      events := find + fetch;
    } else {
      var s2 := Step(k, s1, ReadVersion(i));
      s' := Step(k, s2, ProbeNext(i));
      RunFirst(k, s2, ProbeNext(i), [], s');
      RunFirst(k, s1, ReadVersion(i), [ProbeNext(i)], s');
      events := [ReadVersion(i), ProbeNext(i)];
    }
    RunFirst(k, s, e, events, s');
    events := [e] + events;
  }

  /** One round of a retry: the slot is taken, the client catches up and is about to put again. */
  lemma {:induction false} Round<S, E(!new)>(k: Machine<S, E>, s: State<S, E>, i: ClientId, x: E)
    returns (events: seq<Event<E>>, s': State<S, E>)
    requires i in s.clients && s.clients[i].phase == Put(x) && s.clients[i].version + 1 in s.log
    requires s.clients[i].version <= s.versionKey && FullUpTo(s.log, Goal(s, i))
    ensures OwnRequests(events, i) && Run(k, s, events, s') && OnlyClient(s, s', i, Goal(s, i), Put(x))
  {
    var e: Event<E> := PutEntry(i, true);
    var s1 := Step(k, s, e);
    var find, s2 := FindGoal(k, s1, i);
    var fetch;
    fetch, s' := CatchUp(k, s2, i, false);
    RunOn(k, s1, find, s2, fetch, s');
    RunFirst(k, s, e, find + fetch, s');
    events := [e] + (find + fetch);
  }

  /** A put into a free slot. */
  lemma {:induction false} PutFree<S, E(!new)>(k: Machine<S, E>, s: State<S, E>, i: ClientId, x: E)
    returns (events: seq<Event<E>>, s': State<S, E>)
    requires i in s.clients && s.clients[i].phase == Put(x) && s.clients[i].version + 1 !in s.log
    ensures OwnRequests(events, i) && Run(k, s, events, s') && s'.log == s.log[s.clients[i].version + 1 := x]
  {
    var e: Event<E> := PutEntry(i, true);
    s' := Step(k, s, e);
    events := [e];
    RunFirst(k, s, e, [], s');
  }

  /** The client is up to date, or the version key is not behind it and lags behind the log by at most one entry. */
  predicate GetsThrough<S, E>(s: State<S, E>, i: ClientId)
    requires i in s.clients
  {
    var c, h := s.clients[i].version, s.versionKey;
    c + 1 !in s.log || (c <= h && h + 2 !in s.log)
  }

  /** At most two rounds. */
  lemma {:induction false} Enters<S, E(!new)>(k: Machine<S, E>, entries: seq<E>, s: State<S, E>, i: ClientId, x: E)
    returns (events: seq<Event<E>>, s': State<S, E>)
    requires Holds(s.log, entries) && s.versionKey <= |entries|
    requires i in s.clients && s.clients[i].phase == Put(x) && s.clients[i].version <= |entries| && GetsThrough(s, i)
    ensures OwnRequests(events, i) && Run(k, s, events, s') && s'.log == s.log[|entries| + 1 := x]
    decreases |entries| - s.clients[i].version
  {
    if s.clients[i].version + 1 !in s.log {
      events, s' := PutFree(k, s, i, x);
    } else {
      var first, mid := Round(k, s, i, x);
      var rest;
      rest, s' := Enters(k, entries, mid, i, x);
      RunOn(k, s, first, mid, rest, s');
      events := first + rest;
    }
  }

  /** Nothing this client does will get an operation into the log. */
  ghost predicate Doomed<S, E>(s: State<S, E>, i: ClientId, n: nat)
    requires i in s.clients
  {
    var c, h := s.clients[i], s.versionKey;
    match c.phase
    case Idle => true
    case Put(_) => c.version < n && (h < c.version || h + 1 < n)
    case Behind(pending) => pending.Some? ==> c.version < n && (h < c.version || h + 1 < n)
    case Probe(to, pending) => pending.Some? ==> h + 1 < n && to == h
    case Choose(to, pending) => pending.Some? ==> h + 1 < n && to <= h + 1
    case Fetch(to, _, pending) => pending.Some? ==> h + 1 < n && to <= h + 1
    case _ => false
  }

  lemma {:induction false} StepDoomed<S, E(!new)>(
      k: Machine<S, E>, entries: seq<E>, s: State<S, E>, e: Event<E>, i: ClientId)
    requires Holds(s.log, entries) && i in s.clients && Doomed(s, i, |entries|)
    requires Enabled(s, e) && e.client == i && !e.Operate?
    ensures
      var s' := Step(k, s, e);
      s'.log == s.log && i in s'.clients && Doomed(s', i, |entries|)
  {}

  lemma {:induction false} RunDoomed<S, E(!new)>(
      k: Machine<S, E>, entries: seq<E>, s: State<S, E>, events: seq<Event<E>>, s': State<S, E>, i: ClientId)
    requires Holds(s.log, entries) && i in s.clients && Doomed(s, i, |entries|)
    requires OwnRequests(events, i) && Run(k, s, events, s')
    ensures s'.log == s.log
    decreases |events|
  {
    if events != [] {
      StepDoomed(k, entries, s, events[0], i);
      RunDoomed(k, entries, Step(k, s, events[0]), events[1..], s', i);
    }
  }

  /** An operation whose client is the only one that acts can enter the log exactly when the client is up to date, or
    the version key is not behind the client and at most one entry behind the log. Otherwise the client ends at its own
    assertion that the version key never is behind it. */
  lemma {:induction false} OperationExact<S, E(!new)>(k: Machine<S, E>, s: State<S, E>, i: ClientId)
    requires Reachable(k, s) && i in s.clients && s.clients[i].phase.Put?
    ensures
      (exists events, s' :: OwnRequests(events, i) && Run(k, s, events, s') && s'.log != s.log) <==> GetsThrough(s, i)
  {
    var entries := ReachableInv(k, s);
    assert ClientOk(k, entries, s.clients[i]);
    if GetsThrough(s, i) {
      var events, s' := Enters(k, entries, s, i, s.clients[i].phase.entry);
      assert |entries| + 1 in s'.log && |entries| + 1 !in s.log;
    } else {
      assert Doomed(s, i, |entries|);
      forall events, s' | OwnRequests(events, i) && Run(k, s, events, s') ensures s'.log == s.log {
        RunDoomed(k, entries, s, events, s', i);
      }
    }
  }

  /** What an operation leaves behind: its entry in the log, the version key if that could be put, the client's own map
    with the entry applied, and every 42 versions a stored snapshot of it if that could be put. */
  ghost predicate Performed<S, E>(
      k: Machine<S, E>, s: State<S, E>, s': State<S, E>, i: ClientId, x: E, announced: bool, compacted: bool)
    requires i in s.clients
  {
    var c := s.clients[i];
    var v, content := c.version + 1, k.apply(c.content, c.version + 1, x);
    && s'.log == s.log[v := x] && s'.versionKey == (if announced then v else s.versionKey)
    && s'.clients == s.clients[i := Client(v, content, Idle)]
    && s'.stored == if c.version % 42 == 0 && compacted then Some(Stored(v, content)) else s.stored
  }

  /** An operation of a client that is up to date. */
  lemma {:induction false} OperateAlone<S, E(!new)>(
      k: Machine<S, E>, s: State<S, E>, i: ClientId, x: E, announced: bool, compacted: bool)
    returns (events: seq<Event<E>>, s': State<S, E>)
    requires i in s.clients && s.clients[i].phase.Idle? && s.clients[i].version + 1 !in s.log
    ensures Run(k, s, events, s') && Performed(k, s, s', i, x, announced, compacted)
  {
    var s3 := LoggedOnly(k, s, i, x, announced);
    var s4 := Step(k, s3, ApplyOwn(i));
    if s4.clients[i].phase.Compacting? {
      s' := Step(k, s4, StoreSnapshot(i, compacted));
      events := [StoreSnapshot(i, compacted)];
      RunFirst(k, s4, StoreSnapshot(i, compacted), [], s');
    } else {
      s', events := s4, [];
    }
    RunFirst(k, s3, ApplyOwn(i), events, s');
    events := [ApplyOwn(i)] + events;
    RunOn(k, s, [Operate(i, x), PutEntry(i, true), Announce(i, announced)], s3, events, s');
    events := [Operate(i, x), PutEntry(i, true), Announce(i, announced)] + events;
  }

  lemma {:induction false} LoggedOnly<S, E(!new)>(
      k: Machine<S, E>, s: State<S, E>, i: ClientId, x: E, announced: bool) returns (s': State<S, E>)
    requires i in s.clients && s.clients[i].phase.Idle? && s.clients[i].version + 1 !in s.log
    ensures Run(k, s, [Operate(i, x), PutEntry(i, true), Announce(i, announced)], s')
    ensures
      var v := s.clients[i].version + 1;
      s' == s.(log := s.log[v := x], versionKey := if announced then v else s.versionKey,
        clients := s.clients[i := s.clients[i].(phase := Announced(x))])
  {
    var s1 := Step(k, s, Operate(i, x));
    var s2 := Step(k, s1, PutEntry(i, true));
    s' := Step(k, s2, Announce(i, announced));
    RunFirst(k, s2, Announce(i, announced), [], s');
    RunFirst(k, s1, PutEntry(i, true), [Announce(i, announced)], s');
    RunFirst(k, s, Operate(i, x), [PutEntry(i, true), Announce(i, announced)], s');
  }

  /** Two mounted clients, and two operations of the first whose version keys could not be put. */
  lemma {:induction false} TwoUnannounced<S, E(!new)>(k: Machine<S, E>, x: E, y: E)
    returns (events: seq<Event<E>>, s: State<S, E>)
    ensures Run(k, Initial(), events, s) && 1 in s.log && 2 in s.log && s.versionKey == 0
    ensures 1 in s.clients && s.clients[1].version == 0 && s.clients[1].phase.Idle?
  {
    var s0: State<S, E> := Initial();
    var s1 := Step(k, s0, Mount(0));
    var s2 := Step(k, s1, Mount(1));
    var first, s3 := OperateAlone(k, s2, 0, x, false, false);
    var second;
    second, s := OperateAlone(k, s3, 0, y, false, false);
    RunOn(k, s2, first, s3, second, s);
    RunFirst(k, s1, Mount(1), first + second, s);
    RunFirst(k, s0, Mount(0), [Mount(1)] + (first + second), s);
    events := [Mount(0)] + ([Mount(1)] + (first + second));
  }

  /** It happens: after two operations whose version keys could not be put, an operation of another client that is
    behind never enters the log. */
  lemma {:induction false} LaggingVersionKey<S, E(!new)>(k: Machine<S, E>, x: E, y: E, z: E) returns (s: State<S, E>)
    ensures Reachable(k, s) && 1 in s.clients && s.clients[1].phase == Put(z) && !GetsThrough(s, 1)
  {
    var events, mid := TwoUnannounced(k, x, y);
    s := Step(k, mid, Operate(1, z));
    RunFirst(k, mid, Operate(1, z), [], s);
    RunOn(k, Initial<S, E>(), events, mid, [Operate(1, z)], s);
  }
}
