/** Any number of clients flushing the same block by compare-and-set, merging and retrying when they lose. */
module BlockFlush {
  import opened Prelude
  import opened Bytes
  import opened BlockData

  type ClientId = nat
  type Version = nat

  datatype Phase = Idle | Flushing | Refetching

  /** A client's copy of the block: the version it was read at, its content, the queue, and what the queue stands
    for. */
  datatype Client = Client(keyVersion: Option<Version>, d: seq<Byte>, updates: seq<Extent>, pending: seq<Update>,
    phase: Phase)

  datatype Record = Record(version: Version, content: seq<Byte>)

  /** An update that took effect, and the client it is from; deletions are nobody's. */
  datatype Commit = Commit(author: Option<ClientId>, update: Update)

  /** The stored block, everything that was ever stored under a version, the updates that took effect, and the
    clients. */
  datatype State = State(
    stored: Option<Record>,
    history: map<Version, seq<Byte>>,
    committed: seq<Commit>,
    clients: map<ClientId, Client>)

  datatype Event =
    | Load(client: ClientId, blank: bool)            // blank: the file grows, the block is not read
    | Queue(client: ClientId, update: Update)
    | Flush(client: ClientId)
    | PutBlock(client: ClientId, version: Version)
    | Refetch(client: ClientId)
    | DeleteBlock

  function Content(s: State): seq<Byte> {
    if s.stored.Some? then s.stored.value.content else []
  }

  function StoredVersion(s: State): Option<Version> {
    if s.stored.Some? then Some(s.stored.value.version) else None
  }

  function CommitsOf(i: ClientId, us: seq<Update>): (r: seq<Commit>)
    ensures |r| == |us|
    ensures forall k :: 0 <= k < |us| ==> r[k] == Commit(Some(i), us[k])
  {
    seq(|us|, k requires 0 <= k < |us| => Commit(Some(i), us[k]))
  }

  function Updates(cs: seq<Commit>): (r: seq<Update>)
    ensures |r| == |cs|
    ensures forall k :: 0 <= k < |cs| ==> r[k] == cs[k].update
  {
    seq(|cs|, k requires 0 <= k < |cs| => cs[k].update)
  }

  predicate Enabled(s: State, e: Event) {
    match e
    case Load(i, _) => i in s.clients ==> s.clients[i].phase.Idle? && s.clients[i].pending == []
    case Queue(i, u) => i in s.clients && s.clients[i].phase.Idle? && Batch(s.clients[i].pending + [u])
    case Flush(i) => i in s.clients && s.clients[i].phase.Idle? && s.clients[i].pending != []
    case PutBlock(i, v) => i in s.clients && s.clients[i].phase.Flushing? && v !in s.history
    case Refetch(i) =>
      i in s.clients && s.clients[i].phase.Refetching? && Mergeable(s.clients[i].updates, |s.clients[i].d|)
    case DeleteBlock => true
  }

  function Step(s: State, e: Event): State
    requires Enabled(s, e)
  {
    match e
    case Load(i, blank) =>
      s.(clients := s.clients[i :=
        if blank then Client(None, [], [], [], Idle) else Client(StoredVersion(s), Content(s), [], [], Idle)])
    case Queue(i, u) =>
      var c := s.clients[i];
      s.(clients := s.clients[i :=
        c.(d := Applied(c.d, u), updates := c.updates + [ExtentOf(u)], pending := c.pending + [u])])
    case Flush(i) => s.(clients := s.clients[i := s.clients[i].(phase := Flushing)])
    case PutBlock(i, v) =>
      var c := s.clients[i];
      if c.keyVersion == StoredVersion(s) then
        State(Some(Record(v, c.d)), s.history[v := c.d], s.committed + CommitsOf(i, c.pending),
          s.clients[i := Client(Some(v), c.d, [], [], Idle)])
      else
        s.(clients := s.clients[i := c.(phase := Refetching)])
    case Refetch(i) =>
      var c := s.clients[i];
      if s.stored.Some? then
        s.(clients := s.clients[i := c.(
          keyVersion := StoredVersion(s), d := Merged(c.d, c.updates, Content(s)), phase := Flushing)])
      else
        s.(clients := s.clients[i := c.(phase := Idle)])
    case DeleteBlock => s.(stored := None, committed := s.committed + [Commit(None, Truncate(0))])
  }

  ghost predicate Run(s: State, events: seq<Event>, s': State)
    decreases |events|
  {
    if events == [] then s' == s
    else Enabled(s, events[0]) && Run(Step(s, events[0]), events[1..], s')
  }

  /** The block as the clients find it. */
  function Initial(stored: Option<Record>): State {
    State(stored, if stored.Some? then map[stored.value.version := stored.value.content] else map[], [], map[])
  }

  // ---------------------------------------------------------------------------------------------
  // What every step keeps
  // ---------------------------------------------------------------------------------------------

  /** What the block held when the client last read it. */
  function Base(history: map<Version, seq<Byte>>, c: Client): seq<Byte> {
    if c.keyVersion.Some? && c.keyVersion.value in history then history[c.keyVersion.value] else []
  }

  ghost predicate ClientOk(history: map<Version, seq<Byte>>, c: Client) {
    && (c.keyVersion.Some? ==> c.keyVersion.value in history)
    && c.updates == Extents(c.pending)
    && Shows(c.d, Base(history, c), c.pending)
  }

  ghost predicate ClientsOk(history: map<Version, seq<Byte>>, clients: map<ClientId, Client>) {
    forall i :: i in clients ==> ClientOk(history, clients[i])
  }

  ghost predicate StoredOk(s: State) {
    s.stored.Some? ==>
      s.stored.value.version in s.history && s.history[s.stored.value.version] == s.stored.value.content
  }

  /** Nothing is lost: the stored block is what the committed updates make of the initial content. */
  ghost predicate NothingLost(initial: seq<Byte>, s: State) {
    Same(Content(s), Replayed(initial, Updates(s.committed)))
  }

  ghost predicate Inv(initial: seq<Byte>, s: State) {
    StoredOk(s) && ClientsOk(s.history, s.clients) && NothingLost(initial, s)
  }

  lemma {:induction false} SetClient(
      history: map<Version, seq<Byte>>, clients: map<ClientId, Client>, i: ClientId, c: Client)
    requires ClientsOk(history, clients) && ClientOk(history, c)
    ensures ClientsOk(history, clients[i := c])
  {}

  lemma {:induction false} QueueOk(history: map<Version, seq<Byte>>, c: Client, u: Update)
    requires ClientOk(history, c) && Batch(c.pending + [u])
    ensures ClientOk(history,
      c.(d := Applied(c.d, u), updates := c.updates + [ExtentOf(u)], pending := c.pending + [u]))
  {
    QueueShows(c.d, Base(history, c), c.pending, u);
    assert Extents(c.pending + [u]) == Extents(c.pending) + [ExtentOf(u)];
  }

  lemma {:induction false} QueueKeepsInv(initial: seq<Byte>, s: State, e: Event)
    requires Inv(initial, s) && Enabled(s, e) && e.Queue?
    ensures Inv(initial, Step(s, e))
  {
    var c := s.clients[e.client];
    QueueOk(s.history, c, e.update);
    SetClient(s.history, s.clients, e.client, Step(s, e).clients[e.client]);
  }

  /** A new version in the history concerns no copy that was read before. */
  lemma {:induction false} HistoryGrows(
      history: map<Version, seq<Byte>>, v: Version, x: seq<Byte>, clients: map<ClientId, Client>)
    requires ClientsOk(history, clients) && v !in history
    ensures ClientsOk(history[v := x], clients)
  {
    forall i | i in clients ensures ClientOk(history[v := x], clients[i]) {
      assert ClientOk(history, clients[i]);
      assert Base(history[v := x], clients[i]) == Base(history, clients[i]);
    }
  }

  lemma {:induction false} LoadedOk(history: map<Version, seq<Byte>>, c: Client)
    requires c.keyVersion.Some? ==> c.keyVersion.value in history
    requires c.d == Base(history, c) && c.updates == [] && c.pending == []
    ensures ClientOk(history, c)
  {}

  lemma {:induction false} UpdatesMore(committed: seq<Commit>, i: ClientId, us: seq<Update>)
    ensures Updates(committed + CommitsOf(i, us)) == Updates(committed) + us
  {}

  lemma {:induction false} CommitKeeps(
      initial: seq<Byte>, committed: seq<Commit>, content: seq<Byte>, d: seq<Byte>, i: ClientId, us: seq<Update>)
    requires Same(content, Replayed(initial, Updates(committed))) && Shows(d, content, us)
    ensures Same(d, Replayed(initial, Updates(committed + CommitsOf(i, us))))
  {
    ReplayedSame(content, Replayed(initial, Updates(committed)), us);
    ReplayedConcat(initial, Updates(committed), us);
    UpdatesMore(committed, i, us);
  }

  lemma {:induction false} PutKeepsInv(initial: seq<Byte>, s: State, e: Event)
    requires Inv(initial, s) && Enabled(s, e) && e.PutBlock?
    ensures Inv(initial, Step(s, e))
  {
    var c := s.clients[e.client];
    if c.keyVersion == StoredVersion(s) {
      CommitKeepsInv(initial, s, e.client, e.version);
    } else {
      assert ClientOk(s.history, c.(phase := Refetching));
      SetClient(s.history, s.clients, e.client, c.(phase := Refetching));
    }
  }

  lemma {:induction false} CommitKeepsInv(initial: seq<Byte>, s: State, i: ClientId, v: Version)
    requires Inv(initial, s) && i in s.clients && v !in s.history && s.clients[i].keyVersion == StoredVersion(s)
    ensures
      var c := s.clients[i];
      Inv(initial, State(Some(Record(v, c.d)), s.history[v := c.d], s.committed + CommitsOf(i, c.pending),
        s.clients[i := Client(Some(v), c.d, [], [], Idle)]))
  {
    var c, c' := s.clients[i], Client(Some(v), s.clients[i].d, [], [], Idle);
    assert ClientOk(s.history, c);
    CommitKeeps(initial, s.committed, Content(s), c.d, i, c.pending);
    HistoryGrows(s.history, v, c.d, s.clients);
    LoadedOk(s.history[v := c.d], c');
    SetClient(s.history[v := c.d], s.clients, i, c');
  }

  lemma {:induction false} DeleteKeeps(initial: seq<Byte>, committed: seq<Commit>)
    ensures Same([], Replayed(initial, Updates(committed + [Commit(None, Truncate(0))])))
  {
    assert Updates(committed + [Commit(None, Truncate(0))]) == Updates(committed) + [Truncate(0)];
    ReplayedOne(initial, Updates(committed), Truncate(0));
  }

  lemma {:induction false} RefetchKeepsInv(initial: seq<Byte>, s: State, e: Event)
    requires Inv(initial, s) && Enabled(s, e) && e.Refetch?
    ensures Inv(initial, Step(s, e))
  {
    var c := s.clients[e.client];
    assert ClientOk(s.history, c);
    if s.stored.Some? {
      MergeReplays(c.d, Base(s.history, c), c.pending, Content(s));
    }
  }

  lemma {:induction false} StepKeepsInv(initial: seq<Byte>, s: State, e: Event)
    requires Inv(initial, s) && Enabled(s, e)
    ensures Inv(initial, Step(s, e))
  {
    match e
    case Load(i, blank) =>
      LoadedOk(s.history, Step(s, e).clients[i]);
    case Queue(_, _) => QueueKeepsInv(initial, s, e);
    case Flush(i) => assert ClientOk(s.history, s.clients[i]);
    case PutBlock(_, _) => PutKeepsInv(initial, s, e);
    case Refetch(_) => RefetchKeepsInv(initial, s, e);
    case DeleteBlock => DeleteKeeps(initial, s.committed);
  }

  lemma {:induction false} RunKeepsInv(initial: seq<Byte>, s: State, events: seq<Event>, s': State)
    requires Inv(initial, s) && Run(s, events, s')
    ensures Inv(initial, s') && s.committed <= s'.committed
    decreases |events|
  {
    if events != [] {
      StepKeepsInv(initial, s, events[0]);
      RunKeepsInv(initial, Step(s, events[0]), events[1..], s');
    }
  }

  // ---------------------------------------------------------------------------------------------
  // No update is lost
  // ---------------------------------------------------------------------------------------------

  /** What client i queued in the course of some events. */
  function Queued(events: seq<Event>, i: ClientId): seq<Update>
    decreases |events|
  {
    if events == [] then []
    else (if events[0].Queue? && events[0].client == i then [events[0].update] else []) + Queued(events[1..], i)
  }

  function Deletions(events: seq<Event>): seq<Update>
    decreases |events|
  {
    if events == [] then [] else (if events[0].DeleteBlock? then [Truncate(0)] else []) + Deletions(events[1..])
  }

  /** The committed updates of one author, in order. */
  function By(cs: seq<Commit>, author: Option<ClientId>): seq<Update>
    decreases |cs|
  {
    if cs == [] then []
    else By(cs[..|cs| - 1], author) + (if cs[|cs| - 1].author == author then [cs[|cs| - 1].update] else [])
  }

  function Pending(s: State, i: ClientId): seq<Update> {
    if i in s.clients then s.clients[i].pending else []
  }

  lemma {:induction false} ByMore(cs: seq<Commit>, i: ClientId, us: seq<Update>, author: Option<ClientId>)
    ensures By(cs + CommitsOf(i, us), author) == By(cs, author) + if author == Some(i) then us else []
    decreases |us|
  {
    if us == [] {
      assert cs + CommitsOf(i, us) == cs;
    } else {
      var init, last := us[..|us| - 1], us[|us| - 1];
      ByMore(cs, i, init, author);
      CommitsLast(cs, i, us);
      ByOne(cs + CommitsOf(i, init), Commit(Some(i), last), author);
      assert us == init + [last];
    }
  }

  lemma {:induction false} CommitsLast(cs: seq<Commit>, i: ClientId, us: seq<Update>)
    requires us != []
    ensures cs + CommitsOf(i, us) == (cs + CommitsOf(i, us[..|us| - 1])) + [Commit(Some(i), us[|us| - 1])]
  {}

  lemma {:induction false} ByOne(cs: seq<Commit>, c: Commit, author: Option<ClientId>)
    ensures By(cs + [c], author) == By(cs, author) + if c.author == author then [c.update] else []
  {
    assert (cs + [c])[..|cs|] == cs;
  }

  /** From s to s', updates of client i moved from its queue to the committed ones, none was dropped, and the given ones
    were queued. */
  predicate Conserved(s: State, s': State, i: ClientId, queued: seq<Update>) {
    By(s'.committed, Some(i)) + Pending(s', i) == By(s.committed, Some(i)) + Pending(s, i) + queued
  }

  predicate DeletedToo(s: State, s': State, deletions: seq<Update>) {
    By(s'.committed, None) == By(s.committed, None) + deletions
  }

  lemma {:induction false} PutConserves(s: State, j: ClientId, v: Version, i: ClientId)
    requires Enabled(s, PutBlock(j, v))
    ensures Conserved(s, Step(s, PutBlock(j, v)), i, [])
  {
    var c, s' := s.clients[j], Step(s, PutBlock(j, v));
    ByMore(s.committed, j, c.pending, Some(i));
    if c.keyVersion == StoredVersion(s) {
      assert s'.committed == s.committed + CommitsOf(j, c.pending);
      assert Pending(s', i) == if i == j then [] else Pending(s, i);
    } else {
      assert s'.committed == s.committed && Pending(s', i) == Pending(s, i);
    }
  }

  lemma {:induction false} QueueConserves(s: State, j: ClientId, u: Update, i: ClientId)
    requires Enabled(s, Queue(j, u))
    ensures Conserved(s, Step(s, Queue(j, u)), i, if i == j then [u] else [])
  {
    var s' := Step(s, Queue(j, u));
    assert s'.committed == s.committed;
    assert Pending(s', i) == Pending(s, i) + if i == j then [u] else [];
  }

  lemma {:induction false} StepConserves(s: State, e: Event, i: ClientId)
    requires Enabled(s, e)
    ensures Conserved(s, Step(s, e), i, Queued([e], i))
  {
    assert [e][1..] == [] && Queued([], i) == [];
    match e
    case Queue(j, u) => QueueConserves(s, j, u, i);
    case PutBlock(j, v) => PutConserves(s, j, v, i);
    case DeleteBlock => ByOne(s.committed, Commit(None, Truncate(0)), Some(i));
    case _ => assert Step(s, e).committed == s.committed && Pending(Step(s, e), i) == Pending(s, i);
  }

  lemma {:induction false} StepDeletes(s: State, e: Event)
    requires Enabled(s, e)
    ensures DeletedToo(s, Step(s, e), Deletions([e]))
  {
    assert [e][1..] == [];
    if e.PutBlock? {
      ByMore(s.committed, e.client, s.clients[e.client].pending, None);
    } else if e.DeleteBlock? {
      ByOne(s.committed, Commit(None, Truncate(0)), None);
    }
  }

  lemma {:induction false} NextConserved(
      s: State, mid: State, s': State, i: ClientId, first: Event, events: seq<Event>)
    requires Conserved(s, mid, i, Queued([first], i)) && Conserved(mid, s', i, Queued(events, i))
    requires DeletedToo(s, mid, Deletions([first])) && DeletedToo(mid, s', Deletions(events))
    ensures Conserved(s, s', i, Queued([first] + events, i)) && DeletedToo(s, s', Deletions([first] + events))
  {
    EventsSplit(first, events, i);
    Chained(By(s.committed, Some(i)) + Pending(s, i), By(mid.committed, Some(i)) + Pending(mid, i),
      By(s'.committed, Some(i)) + Pending(s', i), Queued([first], i), Queued(events, i));
    Chained(By(s.committed, None), By(mid.committed, None), By(s'.committed, None), Deletions([first]),
      Deletions(events));
  }

  lemma {:induction false} Chained(a: seq<Update>, b: seq<Update>, c: seq<Update>, x: seq<Update>, y: seq<Update>)
    requires b == a + x && c == b + y
    ensures c == a + (x + y)
  {}

  lemma {:induction false} EventsSplit(first: Event, events: seq<Event>, i: ClientId)
    ensures Queued([first] + events, i) == Queued([first], i) + Queued(events, i)
    ensures Deletions([first] + events) == Deletions([first]) + Deletions(events)
  {
    assert [first][1..] == [] && ([first] + events)[1..] == events;
    assert Queued([], i) == [] && Deletions([]) == [];
  }

  lemma {:induction false} RunConserves(s: State, events: seq<Event>, s': State, i: ClientId)
    requires Run(s, events, s')
    ensures Conserved(s, s', i, Queued(events, i)) && DeletedToo(s, s', Deletions(events))
    decreases |events|
  {
    if events != [] {
      var e, mid := events[0], Step(s, events[0]);
      StepConserves(s, e, i);
      StepDeletes(s, e);
      RunConserves(mid, events[1..], s', i);
      NextConserved(s, mid, s', i, e, events[1..]);
      assert events == [e] + events[1..];
    }
  }

  /** No lost update: whatever the clients do, the stored block, extended with zeros, is the initial content with all
    committed updates replayed in the order of their commits; and what was committed of each client is, in order, all
    that it ever queued except what is still in its queue. */
  lemma {:induction false} NoLostUpdate(stored: Option<Record>, events: seq<Event>, s: State)
    requires Run(Initial(stored), events, s)
    ensures Same(Content(s), Replayed(Content(Initial(stored)), Updates(s.committed)))
    ensures forall i :: By(s.committed, Some(i)) + Pending(s, i) == Queued(events, i)
    ensures By(s.committed, None) == Deletions(events)
  {
    InitialInv(stored);
    RunKeepsInv(Content(Initial(stored)), Initial(stored), events, s);
    forall i ensures By(s.committed, Some(i)) + Pending(s, i) == Queued(events, i) {
      RunConserves(Initial(stored), events, s, i);
    }
    RunConserves(Initial(stored), events, s, 0);
  }

  lemma {:induction false} InitialInv(stored: Option<Record>)
    ensures Inv(Content(Initial(stored)), Initial(stored))
  {}

  /** A merge is never stuck on a queue it cannot handle. */
  lemma {:induction false} RefetchIsEnabled(initial: seq<Byte>, s: State, i: ClientId)
    requires Inv(initial, s) && i in s.clients && s.clients[i].phase.Refetching?
    ensures Enabled(s, Refetch(i))
  {
    assert ClientOk(s.history, s.clients[i]);
  }

  /** A put whose version is the stored one, or that finds no block and read none, stores the block with exactly the
    queued updates applied to it, under the new version. Any other put changes nothing and makes the client read the
    block again. */
  lemma {:induction false} PutExact(initial: seq<Byte>, s: State, i: ClientId, v: Version)
    requires Inv(initial, s) && Enabled(s, PutBlock(i, v))
    ensures
      var c, s' := s.clients[i], Step(s, PutBlock(i, v));
      && s'.clients == s.clients[i := s'.clients[i]]
      && if c.keyVersion == StoredVersion(s) then
          && StoredVersion(s') == Some(v) && Same(Content(s'), Replayed(Content(s), c.pending))
          && s'.clients[i].keyVersion == Some(v) && s'.clients[i].pending == [] && s'.clients[i].phase.Idle?
        else s'.stored == s.stored && s'.clients[i].pending == c.pending && s'.clients[i].phase.Refetching?
  {
    assert ClientOk(s.history, s.clients[i]);
  }

  /** A client that is not overtaken between reading the block again and writing it succeeds with its whole batch. */
  lemma {:induction false} RetryCommits(initial: seq<Byte>, s: State, i: ClientId, v: Version)
    requires Inv(initial, s) && i in s.clients && s.clients[i].phase.Refetching? && s.stored.Some? && v !in s.history
    ensures
      && Enabled(s, Refetch(i)) && Enabled(Step(s, Refetch(i)), PutBlock(i, v))
      && var s' := Step(Step(s, Refetch(i)), PutBlock(i, v));
      && s'.committed == s.committed + CommitsOf(i, s.clients[i].pending) && s'.clients[i].pending == []
      && StoredVersion(s') == Some(v) && Same(Content(s'), Replayed(Content(s), s.clients[i].pending))
  {
    RefetchIsEnabled(initial, s, i);
    RefetchKeepsInv(initial, s, Refetch(i));
    var mid := Step(s, Refetch(i));
    assert ClientOk(mid.history, mid.clients[i]);
    PutExact(initial, mid, i, v);
  }

  /** Load, queue, flush and put without interference: the update has taken effect, whether the block existed or not. A
    block that exists and was not read takes one more round. */
  lemma {:induction false} FlushAlone(initial: seq<Byte>, s: State, i: ClientId, blank: bool, u: Update, v: Version)
    requires Inv(initial, s) && Enabled(s, Load(i, blank)) && Batch([u]) && v !in s.history
    ensures
      var s1 := Step(s, Load(i, blank));
      && Enabled(s1, Queue(i, u))
      && var s2 := Step(s1, Queue(i, u));
      && Enabled(s2, Flush(i))
      && var s3 := Step(s2, Flush(i));
      && Enabled(s3, PutBlock(i, v))
      && var s4 := Step(s3, PutBlock(i, v));
      if blank && s.stored.Some? then
        && Enabled(s4, Refetch(i)) && Enabled(Step(s4, Refetch(i)), PutBlock(i, v))
        && TookEffect(s, Step(Step(s4, Refetch(i)), PutBlock(i, v)), u, v)
      else TookEffect(s, s4, u, v)
  {
    var s1 := Step(s, Load(i, blank));
    StepKeepsInv(initial, s, Load(i, blank));
    assert s1.clients[i].pending + [u] == [u];
    var s2 := Step(s1, Queue(i, u));
    StepKeepsInv(initial, s1, Queue(i, u));
    var s3 := Step(s2, Flush(i));
    StepKeepsInv(initial, s2, Flush(i));
    assert s3.clients[i].pending == [u];
    PutExact(initial, s3, i, v);
    StepKeepsInv(initial, s3, PutBlock(i, v));
    ReplayedSingle(Content(s), u);
    if blank && s.stored.Some? {
      RetryCommits(initial, Step(s3, PutBlock(i, v)), i, v);
    }
  }

  ghost predicate TookEffect(s: State, s': State, u: Update, v: Version) {
    StoredVersion(s') == Some(v) && Same(Content(s'), Applied(Content(s), u))
  }
}
