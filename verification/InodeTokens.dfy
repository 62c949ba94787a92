/** Inode numbers: clients draw ranges of numbers from a shared counter key by compare-and-set and hand them out one by
  one. Clients come and go; a client that mounts again is a new one. */
module InodeTokens {
  import opened Prelude

  type ClientId = nat

  const RANGE := 65535        // the largest 16-bit number

  /** Drawing: refresh tells whether the client had used up a range, as opposed to mounting. */
  datatype Phase = Idle | Reading(refresh: bool) | Putting(read: nat, refresh: bool)

  /** base is the range in use, once there is one. */
  datatype Client = Client(drawn: bool, base: nat, counter: nat, phase: Phase)

  /** key is the version of the counter key, 0 while it does not exist; issued are all numbers in order. */
  datatype State = State(key: nat, clients: map<ClientId, Client>, issued: seq<nat>)

  datatype Event = Mount(client: ClientId) | Generate(client: ClientId) | ReadKey(client: ClientId)
    | PutKey(client: ClientId)
    | Unmount(client: ClientId)

  predicate Enabled(s: State, e: Event) {
    if e.Mount? then e.client !in s.clients
    else
      && e.client in s.clients
      && var p := s.clients[e.client].phase;
      match e
      case Generate(_) => p.Idle?
      case ReadKey(_) => p.Reading?
      case PutKey(_) => p.Putting?
      case Unmount(_) => true
      case Mount(_) => false
  }

  function Step(s: State, e: Event): State
    requires Enabled(s, e)
  {
    var i := e.client;
    match e
    case Mount(_) => s.(clients := s.clients[i := Client(false, 0, 0, Reading(false))])
    case Unmount(_) => s.(clients := s.clients - {i})
    case Generate(_) =>
      var c := s.clients[i];
      var n := (c.counter + 1) % 65536;
      if n == RANGE then s.(clients := s.clients[i := c.(counter := n, phase := Reading(true))])
      else s.(clients := s.clients[i := c.(counter := n)], issued := s.issued + [c.base + n])
    case ReadKey(_) =>
      var c := s.clients[i];
      s.(clients := s.clients[i := c.(phase := Putting(s.key, c.phase.refresh))])
    case PutKey(_) =>
      var c := s.clients[i];
      if s.key != c.phase.read then s.(clients := s.clients[i := c.(phase := Reading(c.phase.refresh))])
      else
        State(s.key + RANGE, s.clients[i := Client(true, s.key, 0, Idle)],
          if c.phase.refresh then s.issued + [s.key] else s.issued)
  }

  ghost predicate Run(s: State, events: seq<Event>, s': State)
    decreases |events|
  {
    if events == [] then s' == s
    else Enabled(s, events[0]) && Run(Step(s, events[0]), events[1..], s')
  }

  const Initial := State(0, map[], [])

  // ---------------------------------------------------------------------------------------------
  // What every step keeps
  // ---------------------------------------------------------------------------------------------

  predicate InRange(c: Client, x: nat) {
    c.drawn && c.base <= x < c.base + RANGE
  }

  /** A client's range lies below the key, and none of the numbers ahead of its counter is issued yet. */
  ghost predicate ClientOk(key: nat, issued: seq<nat>, c: Client) {
    && (c.drawn ==> c.base + RANGE <= key)
    && (c.phase.Idle? ==> c.drawn && c.counter < RANGE)
    && (c.phase.Reading? && c.phase.refresh ==> c.drawn)
    && (c.phase.Putting? && c.phase.refresh ==> c.drawn)
    && (forall k :: 0 <= k < |issued| && InRange(c, issued[k]) ==> issued[k] <= c.base + c.counter)
  }

  ghost predicate Apart(c: Client, d: Client) {
    c.drawn && d.drawn ==> c.base + RANGE <= d.base || d.base + RANGE <= c.base
  }

  ghost predicate Inv(s: State) {
    && (forall i :: i in s.clients ==> ClientOk(s.key, s.issued, s.clients[i]))
    && (forall i, j :: i in s.clients && j in s.clients && i != j ==> Apart(s.clients[i], s.clients[j]))
    && (forall k :: 0 <= k < |s.issued| ==> 0 < s.issued[k] < s.key)
    && Distinct(s.issued)
  }

  /** The next number of a client's own range is new. */
  lemma {:induction false} GenerateKeepsInv(s: State, e: Event)
    requires Inv(s) && Enabled(s, e) && e.Generate?
    ensures Inv(Step(s, e))
  {
    var c := s.clients[e.client];
    assert ClientOk(s.key, s.issued, c);
    var s' := Step(s, e);
    forall j | j in s'.clients ensures ClientOk(s'.key, s'.issued, s'.clients[j]) {
      assert ClientOk(s.key, s.issued, s.clients[j]);
      if j != e.client { assert Apart(s.clients[j], c); }
    }
    forall j, k | j in s'.clients && k in s'.clients && j != k ensures Apart(s'.clients[j], s'.clients[k]) {
      assert Apart(s.clients[j], s.clients[k]);
    }
  }

  /** A range is drawn from the key's value on, above everything issued. */
  lemma {:induction false} PutKeepsInv(s: State, e: Event)
    requires Inv(s) && Enabled(s, e) && e.PutKey?
    ensures Inv(Step(s, e))
  {
    var c := s.clients[e.client];
    assert ClientOk(s.key, s.issued, c);
    var s' := Step(s, e);
    forall j | j in s'.clients ensures ClientOk(s'.key, s'.issued, s'.clients[j]) {
      assert ClientOk(s.key, s.issued, s.clients[j]);
    }
    forall j, k | j in s'.clients && k in s'.clients && j != k ensures Apart(s'.clients[j], s'.clients[k]) {
      assert ClientOk(s.key, s.issued, s.clients[j]) && ClientOk(s.key, s.issued, s.clients[k]);
      assert Apart(s.clients[j], s.clients[k]);
    }
  }

  lemma {:induction false} StepKeepsInv(s: State, e: Event)
    requires Inv(s) && Enabled(s, e)
    ensures Inv(Step(s, e))
  {
    if e.Generate? {
      GenerateKeepsInv(s, e);
    } else if e.PutKey? {
      PutKeepsInv(s, e);
    } else {
      var s' := Step(s, e);
      forall j | j in s'.clients ensures ClientOk(s'.key, s'.issued, s'.clients[j]) {
        if j in s.clients { assert ClientOk(s.key, s.issued, s.clients[j]); }
      }
      forall j, k | j in s'.clients && k in s'.clients && j != k ensures Apart(s'.clients[j], s'.clients[k]) {
        if j in s.clients && k in s.clients { assert Apart(s.clients[j], s.clients[k]); }
      }
    }
  }

  lemma {:induction false} RunKeepsInv(s: State, events: seq<Event>, s': State)
    requires Inv(s) && Run(s, events, s')
    ensures Inv(s')
    decreases |events|
  {
    if events != [] {
      StepKeepsInv(s, events[0]);
      RunKeepsInv(Step(s, events[0]), events[1..], s');
    }
  }

  /** No inode number is issued twice and 0 is never issued, whatever clients mount, lose races and refresh. */
  lemma {:induction false} InodeNumbersUnique(events: seq<Event>, s: State)
    requires Run(Initial, events, s)
    ensures Distinct(s.issued) && forall k :: 0 <= k < |s.issued| ==> s.issued[k] != 0
  {
    RunKeepsInv(Initial, events, s);
  }

  // ---------------------------------------------------------------------------------------------
  // Every request is answered with one number
  // ---------------------------------------------------------------------------------------------

  function Requests(events: seq<Event>): nat {
    if events == [] then 0 else (if events[0].Generate? then 1 else 0) + Requests(events[1..])
  }

  /** A request is waiting for a new range. */
  predicate Waiting(c: Client) {
    match c.phase
    case Idle => false
    case Reading(refresh) => refresh
    case Putting(_, refresh) => refresh
  }

  ghost function AllWaiting(s: State): set<ClientId> {
    set i | i in s.clients && Waiting(s.clients[i])
  }

  /** Clients that unmount while they wait take their request with them. */
  ghost function Gone(s: State, events: seq<Event>, s': State): nat
    requires Run(s, events, s')
    decreases |events|
  {
    if events == [] then 0
    else
      (if events[0].Unmount? && events[0].client in AllWaiting(s) then 1 else 0)
        + Gone(Step(s, events[0]), events[1..], s')
  }

  lemma {:induction false} WaitingAfter(s: State, s': State, i: ClientId)
    requires forall j :: j != i ==> (j in s'.clients <==> j in s.clients)
    requires forall j :: j != i && j in s.clients ==> s'.clients[j] == s.clients[j]
    ensures |AllWaiting(s')| ==
      |AllWaiting(s)| - (if i in AllWaiting(s) then 1 else 0) + (if i in AllWaiting(s') then 1 else 0)
  {
    var others := AllWaiting(s) - {i};
    assert AllWaiting(s) == if i in AllWaiting(s) then others + {i} else others;
    assert AllWaiting(s') == if i in AllWaiting(s') then others + {i} else others;
  }

  lemma {:induction false} StepAnswers(s: State, e: Event)
    requires Enabled(s, e)
    ensures
      |s.issued| + |AllWaiting(s)| + (if e.Generate? then 1 else 0)
      == |Step(s, e).issued| + |AllWaiting(Step(s, e))| + if e.Unmount? && e.client in AllWaiting(s) then 1 else 0
  {
    WaitingAfter(s, Step(s, e), e.client);
  }

  /** Every request was answered with one number, or waits for a new range, or its client left while it was waiting. */
  lemma {:induction false} RequestsAnswered(s: State, events: seq<Event>, s': State)
    requires Run(s, events, s')
    ensures |s.issued| + |AllWaiting(s)| + Requests(events) == |s'.issued| + |AllWaiting(s')| + Gone(s, events, s')
    decreases |events|
  {
    if events != [] {
      StepAnswers(s, events[0]);
      RequestsAnswered(Step(s, events[0]), events[1..], s');
    }
  }

  /** The n numbers from a on. */
  function Numbers(a: nat, n: nat): seq<nat> {
    seq(n, i requires 0 <= i => a + i)
  }

  function Generates(i: ClientId, n: nat): seq<Event> {
    seq(n, _ => Generate(i))
  }

  /** Within its range a client hands out number after number. */
  lemma {:induction false} NumbersInOrder(s: State, i: ClientId, n: nat) returns (s': State)
    requires i in s.clients && s.clients[i].phase.Idle? && s.clients[i].counter + n < RANGE
    ensures Run(s, Generates(i, n), s')
    ensures s'.issued == s.issued + Numbers(s.clients[i].base + s.clients[i].counter + 1, n)
    decreases n
  {
    if n == 0 {
      s' := s;
    } else {
      var mid := Step(s, Generate(i));
      s' := NumbersInOrder(mid, i, n - 1);
      assert Generates(i, n)[1..] == Generates(i, n - 1);
      var a := s.clients[i].base + s.clients[i].counter + 1;
      assert Numbers(a, n) == [a] + Numbers(a + 1, n - 1);
    }
  }

  lemma {:induction false} DrawAlone(s1: State, i: ClientId, s2: State, s3: State)
    requires Enabled(s1, ReadKey(i)) && s2 == Step(s1, ReadKey(i)) && Enabled(s2, PutKey(i))
      && s3 == Step(s2, PutKey(i))
    ensures Run(s1, [ReadKey(i), PutKey(i)], s3)
  {
    assert [ReadKey(i), PutKey(i)][1..] == [PutKey(i)] && [PutKey(i)][1..] == [];
    assert Run(s3, [], s3) && Run(s2, [PutKey(i)], s3);
  }

  /** A client that mounts alone gets the range that starts at the counter key and moves the key behind it. */
  lemma {:induction false} MountAlone(s: State, i: ClientId) returns (s': State)
    requires i !in s.clients
    ensures Run(s, [Mount(i), ReadKey(i), PutKey(i)], s') && s'.key == s.key + RANGE && s'.issued == s.issued
    ensures i in s'.clients && s'.clients[i] == Client(true, s.key, 0, Idle)
  {
    var s1 := Step(s, Mount(i));
    var s2 := Step(s1, ReadKey(i));
    s' := Step(s2, PutKey(i));
    DrawAlone(s1, i, s2, s');
    assert [Mount(i), ReadKey(i), PutKey(i)][1..] == [ReadKey(i), PutKey(i)];
  }

  /** The request behind the last number of a range draws a new range and is answered with its first number. */
  lemma {:induction false} RefreshAlone(s: State, i: ClientId) returns (s': State)
    requires i in s.clients && s.clients[i].phase.Idle? && s.clients[i].counter == RANGE - 1
    ensures Run(s, [Generate(i), ReadKey(i), PutKey(i)], s') && s'.key == s.key + RANGE
    ensures s'.issued == s.issued + [s.key] && i in s'.clients && s'.clients[i] == Client(true, s.key, 0, Idle)
  {
    var s1 := Step(s, Generate(i));
    var s2 := Step(s1, ReadKey(i));
    s' := Step(s2, PutKey(i));
    DrawAlone(s1, i, s2, s');
    assert [Generate(i), ReadKey(i), PutKey(i)][1..] == [ReadKey(i), PutKey(i)];
  }
}
