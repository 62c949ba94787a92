/** Hard links to one inode, made and removed by any number of clients.

  The inode's metadata starts at its path. The first hard link turns that key into a source that forwards to
  a shared target key with a link count; every further name is a source key of its own. Sources, target and
  directory entries are separate keys, each written by its own compare-and-set, and the steps of all clients
  interleave freely. Renames, crashes and store errors are not part of this protocol model.
 */
module HardLinks {

  type Name = string
  type ClientId = nat
  type Version = nat

  /** The metadata key at one name. */
  datatype NameKey =
    | Posix(version: Version)
    | Source(version: Version, count: nat)

  datatype TargetKey = NoTarget | Target(version: Version, count: nat)

  /** A client's copy of the inode's metadata, possibly cached and out of date. */
  datatype Copy = PosixCopy(path: Name, version: Version) | TargetCopy(version: Version, count: nat)

  datatype Phase =
    | Idle
    // link
    | Reserved(name: Name, copy: Copy)
    | Forwarded(name: Name, path: Name)
    | Ready(name: Name, version: Version, count: nat)
    | Counted(name: Name)
    | Undo(name: Name)
    // unlink
    | SourceRead(name: Name, version: Version, count: nat, sourceVersion: Version)
    | Zeroed(name: Name, version: Version, count: nat, sourceVersion: Version)
    | Reset(name: Name, sourceVersion: Version)
    | Dropped(name: Name, sourceVersion: Version)
    | EntryLeft(name: Name)

  /** How far the inode has come on its way from an ordinary file to a link target. */
  datatype Stage = Ordinary | Forwarding(client: ClientId, path: Name) | Linked

  datatype State = State(
    entries: set<Name>,               // directory entries
    keys: map<Name, NameKey>,         // metadata keys at the names
    target: TargetKey,                // the hardlink_<inode> key
    clients: map<ClientId, Phase>,
    next: Version,                    // supply of fresh versions
    posixSeen: set<Version>,          // versions the metadata had while it was an ordinary inode
    targetSeen: set<(Version, nat)>,  // versions and link counts the target ever had
    stage: Stage)                     // history only: no step depends on it

  datatype Event =
    | ReserveName(client: ClientId, name: Name, copy: Copy)
    | UseTarget(client: ClientId)
    | ForwardSource(client: ClientId)
    | CreateTarget(client: ClientId)
    | CountUp(client: ClientId)
    | CreateSource(client: ClientId)
    | UndoEntry(client: ClientId)
    | ReadSource(client: ClientId, name: Name, version: Version, count: nat)
    | ZeroSource(client: ClientId)
    | CountDown(client: ClientId)
    | ResetSource(client: ClientId)
    | DeleteSource(client: ClientId)
    | DeleteEntry(client: ClientId)
    | DeletePosix(client: ClientId, name: Name, version: Version)
    | TouchPosix(client: ClientId, name: Name, version: Version)
    | TouchTarget(client: ClientId, version: Version, count: nat)

  function PhaseOf(s: State, c: ClientId): Phase {
    if c in s.clients then s.clients[c] else Idle
  }

  function Initial(path: Name): State {
    State({path}, map[path := Posix(0)], NoTarget, map[], 1, {0}, {}, Ordinary)
  }

  /** The event is the client's next step; copies of metadata are any the store ever returned. */
  predicate Enabled(s: State, e: Event) {
    var p := PhaseOf(s, e.client);
    match e
    case ReserveName(_, n, copy) =>
      && p.Idle? && n !in s.entries
      && (match copy
          case PosixCopy(_, v) => v in s.posixSeen
          case TargetCopy(v, k) => (v, k) in s.targetSeen)
    case UseTarget(_) => p.Reserved? && p.copy.TargetCopy?
    case ForwardSource(_) => p.Reserved? && p.copy.PosixCopy?
    case CreateTarget(_) => p.Forwarded?
    case CountUp(_) => p.Ready?
    case CreateSource(_) => p.Counted?
    case UndoEntry(_) => p.Undo?
    case ReadSource(_, n, v, k) =>
      p.Idle? && n in s.keys && s.keys[n].Source? && s.keys[n].count != 0 && (v, k) in s.targetSeen
    case ZeroSource(_) => p.SourceRead?
    case CountDown(_) => p.Zeroed?
    case ResetSource(_) => p.Reset?
    case DeleteSource(_) => p.Dropped?
    case DeleteEntry(_) => p.EntryLeft?
    case DeletePosix(_, n, v) => p.Idle? && v in s.posixSeen
    case TouchPosix(_, n, v) => p.Idle? && v in s.posixSeen
    case TouchTarget(_, v, k) => p.Idle? && (v, k) in s.targetSeen
  }

  /** Writes the code treats as unable to fail: it ends the process when one does. */
  predicate MandatoryWriteFails(s: State, e: Event) {
    var p := PhaseOf(s, e.client);
    match e
    case CreateTarget(_) => !s.target.NoTarget?
    case CreateSource(_) => p.Counted? && p.name in s.keys
    case UndoEntry(_) => p.Undo? && p.name !in s.entries
    case ResetSource(_) => p.Reset? && !HasVersion(s, p.name, p.sourceVersion)
    case DeleteSource(_) => p.Dropped? && !HasVersion(s, p.name, p.sourceVersion)
    case DeleteEntry(_) => p.EntryLeft? && p.name !in s.entries
    case _ => false
  }

  predicate HasVersion(s: State, n: Name, v: Version) {
    n in s.keys && s.keys[n].version == v
  }

  function To(s: State, c: ClientId, p: Phase): State {
    s.(clients := s.clients[c := p])
  }

  function WriteKey(s: State, n: Name, k: NameKey): State {
    s.(keys := s.keys[n := k], next := s.next + 1)
  }

  function WriteTarget(s: State, count: nat): State {
    s.(target := Target(s.next, count), next := s.next + 1, targetSeen := s.targetSeen + {(s.next, count)})
  }

  /** An unlink takes its name off the count, and the target with the last one. */
  function CountedDown(s: State, c: ClientId, p: Phase): State
    requires p.Zeroed?
  {
    if s.target.Target? && s.target.version == p.version && p.count > 0 then
      var next := if p.count == 1 then s.(target := NoTarget) else WriteTarget(s, p.count - 1);
      To(next, c, Dropped(p.name, p.sourceVersion))
    else To(s, c, Reset(p.name, p.sourceVersion))
  }

  function Step(s: State, e: Event): State
    requires Enabled(s, e)
  {
    var c := e.client;
    var p := PhaseOf(s, c);
    match e
    case ReserveName(_, n, copy) => To(s.(entries := s.entries + {n}), c, Reserved(n, copy))
    case UseTarget(_) => To(s, c, Ready(p.name, p.copy.version, p.copy.count))
    case ForwardSource(_) =>
      if HasVersion(s, p.copy.path, p.copy.version)
      then To(WriteKey(s, p.copy.path, Source(s.next, 1)).(stage := Forwarding(c, p.copy.path)), c,
        Forwarded(p.name, p.copy.path))
      else To(s, c, Undo(p.name))
    case CreateTarget(_) =>
      if s.target.NoTarget? then To(WriteTarget(s, 1).(stage := Linked), c, Ready(p.name, s.next, 1)) else s
    case CountUp(_) =>
      if s.target.Target? && s.target.version == p.version
      then To(WriteTarget(s, p.count + 1), c, Counted(p.name))
      else To(s, c, Undo(p.name))
    case CreateSource(_) =>
      if p.name !in s.keys then To(WriteKey(s, p.name, Source(s.next, 1)), c, Idle) else s
    case UndoEntry(_) => To(s.(entries := s.entries - {p.name}), c, Idle)
    case ReadSource(_, n, v, k) => To(s, c, SourceRead(n, v, k, s.keys[n].version))
    case ZeroSource(_) =>
      if HasVersion(s, p.name, p.sourceVersion)
      then To(WriteKey(s, p.name, Source(s.next, 0)), c, Zeroed(p.name, p.version, p.count, s.next))
      else To(s, c, Idle)
    case CountDown(_) => CountedDown(s, c, p)
    case ResetSource(_) =>
      if HasVersion(s, p.name, p.sourceVersion) then To(WriteKey(s, p.name, Source(s.next, 1)), c, Idle) else s
    case DeleteSource(_) =>
      if HasVersion(s, p.name, p.sourceVersion) then To(s.(keys := s.keys - {p.name}), c, EntryLeft(p.name)) else s
    case DeleteEntry(_) => To(s.(entries := s.entries - {p.name}), c, Idle)
    case DeletePosix(_, n, v) =>
      if HasVersion(s, n, v) then To(s.(keys := s.keys - {n}), c, EntryLeft(n)) else s
    case TouchPosix(_, n, v) =>
      if HasVersion(s, n, v) then To(WriteKey(s, n, Posix(s.next)).(posixSeen := s.posixSeen + {s.next}), c, Idle)
        else s
    case TouchTarget(_, v, k) =>
      if s.target.Target? && s.target.version == v then To(WriteTarget(s, k), c, Idle) else s
  }

  ghost predicate Run(s: State, events: seq<Event>, s': State)
    decreases |events|
  {
    if events == [] then s' == s
    else Enabled(s, events[0]) && Run(Step(s, events[0]), events[1..], s')
  }

  // ---------------------------------------------------------------------------------------------
  // What is counted
  // ---------------------------------------------------------------------------------------------

  /** Names that can be looked up and reach the target. */
  ghost function LiveSources(s: State): set<Name> {
    set n | n in s.keys && s.keys[n].Source? && s.keys[n].count == 1
  }

  /** Unlinks that zeroed their source but have not decremented the target. */
  ghost function PendingUnlinks(s: State): set<ClientId> {
    set c | c in s.clients && (s.clients[c].Zeroed? || s.clients[c].Reset?)
  }

  /** Links that incremented the target but have not created their source. */
  ghost function PendingLinks(s: State): set<ClientId> {
    set c | c in s.clients && s.clients[c].Counted?
  }

  predicate IsPending(p: Phase) {
    p.Zeroed? || p.Reset? || p.Counted?
  }

  /** Everything that still counts on the target. */
  ghost function Claims(s: State): nat {
    |LiveSources(s)| + |Pending(s)|
  }

  ghost function Pending(s: State): set<ClientId> {
    set c | c in s.clients && IsPending(s.clients[c])
  }

  function Live(s: State, n: Name): int {
    if n in s.keys && s.keys[n].Source? && s.keys[n].count == 1 then 1 else 0
  }

  function Waits(p: Phase): int {
    if IsPending(p) then 1 else 0
  }

  lemma {:induction false} LiveSourcesAfter(s: State, s': State, n: Name)
    requires forall m :: m != n ==> (m in s'.keys <==> m in s.keys) && (m in s.keys ==> s'.keys[m] == s.keys[m])
    ensures |LiveSources(s')| == |LiveSources(s)| + Live(s', n) - Live(s, n)
  {
    var rest := LiveSources(s) - {n};
    assert LiveSources(s) == if Live(s, n) == 1 then rest + {n} else rest;
    assert LiveSources(s') == if Live(s', n) == 1 then rest + {n} else rest;
  }

  lemma {:induction false} PendingAfter(s: State, s': State, c: ClientId)
    requires s'.clients == s.clients[c := PhaseOf(s', c)]
    ensures |Pending(s')| == |Pending(s)| + Waits(PhaseOf(s', c)) - Waits(PhaseOf(s, c))
  {
    var others := Pending(s) - {c};
    assert Pending(s) == if Waits(PhaseOf(s, c)) == 1 then others + {c} else others;
    assert Pending(s') == if Waits(PhaseOf(s', c)) == 1 then others + {c} else others;
  }

  /** One name's key and one client's phase change: the claims change by what these two contribute. */
  lemma {:induction false} ClaimsAfter(s: State, s': State, c: ClientId, n: Name)
    requires s'.clients == s.clients[c := PhaseOf(s', c)]
    requires forall m :: m != n ==> (m in s'.keys <==> m in s.keys) && (m in s.keys ==> s'.keys[m] == s.keys[m])
    ensures Claims(s') == Claims(s) + Live(s', n) - Live(s, n) + Waits(PhaseOf(s', c)) - Waits(PhaseOf(s, c))
  {
    LiveSourcesAfter(s, s', n);
    PendingAfter(s, s', c);
  }

  // ---------------------------------------------------------------------------------------------
  // What every step keeps
  // ---------------------------------------------------------------------------------------------

  /** Phases in which a client alone may touch a name and its keys. */
  predicate Holds(p: Phase, n: Name) {
    !p.Idle? && !p.SourceRead? && p.name == n
  }

  ghost predicate Exclusive(s: State) {
    forall c, d :: c in s.clients && d in s.clients && c != d ==>
      forall n :: Holds(s.clients[c], n) ==> !Holds(s.clients[d], n)
  }

  /** The name is taken in the directory and has no metadata key. */
  predicate Taken(s: State, n: Name) {
    n in s.entries && n !in s.keys
  }

  predicate ZeroedAt(s: State, n: Name, v: Version) {
    n in s.entries && n in s.keys && s.keys[n] == Source(v, 0)
  }

  ghost predicate PhaseOk(s: State, p: Phase) {
    match p
    case Idle => true
    case SourceRead(n, v, k, sv) =>
      sv < s.next && (v, k) in s.targetSeen && (HasVersion(s, n, sv) ==> s.keys[n] == Source(sv, 1))
    case Zeroed(n, v, k, sv) => ZeroedAt(s, n, sv) && (v, k) in s.targetSeen
    case Reset(n, sv) => ZeroedAt(s, n, sv) && s.targetSeen != {}
    case Dropped(n, sv) => ZeroedAt(s, n, sv)
    case EntryLeft(n) => Taken(s, n)
    case Reserved(n, copy) =>
      && Taken(s, n)
      && (copy.PosixCopy? ==> copy.version in s.posixSeen)
      && (copy.TargetCopy? ==> (copy.version, copy.count) in s.targetSeen)
    case Forwarded(n, path) => Taken(s, n)
    case Ready(n, v, k) => Taken(s, n) && (v, k) in s.targetSeen
    case Counted(n) => Taken(s, n) && s.targetSeen != {}
    case Undo(n) => Taken(s, n)
  }

  ghost predicate KeysOk(s: State) {
    && (forall n :: n in s.keys ==> n in s.entries && s.keys[n].version < s.next)
    && (forall v :: v in s.posixSeen ==> v < s.next)
    && (forall n :: n in s.keys && s.keys[n].version in s.posixSeen ==> s.keys[n].Posix?)
    && (forall n :: n in s.keys && s.keys[n].Source? ==> s.keys[n].count <= 1)
  }

  ghost predicate TargetOk(s: State) {
    && (forall x :: x in s.targetSeen ==> x.0 < s.next)
    && (s.target.Target? ==> (s.target.version, s.target.count) in s.targetSeen)
    && (forall x, y :: x in s.targetSeen && y in s.targetSeen && x.0 == y.0 ==> x == y)
  }

  ghost predicate StageOk(s: State) {
    match s.stage
    case Ordinary =>
      && s.targetSeen == {} && s.target.NoTarget?
      && (forall n :: n in s.keys ==> s.keys[n].Posix?)
      && (forall m, n :: m in s.keys && n in s.keys ==> m == n)
      && (forall c :: c in s.clients ==> !s.clients[c].Forwarded?)
    case Forwarding(f, path) =>
      && s.targetSeen == {} && s.target.NoTarget?
      && (forall n :: n in s.keys <==> n == path)
      && path in s.keys && s.keys[path].Source? && s.keys[path].count == 1
      && f in s.clients && s.clients[f].Forwarded?
      && (forall c :: c in s.clients && s.clients[c].Forwarded? ==> c == f)
    case Linked =>
      && s.targetSeen != {}
      && (forall n :: n in s.keys ==> s.keys[n].Source?)
      && (forall c :: c in s.clients ==> !s.clients[c].Forwarded?)
  }

  /** The link count is exact; once the target is gone nothing counts on it any more. */
  ghost predicate CountExact(s: State) {
    && (s.target.Target? ==> s.target.count == Claims(s) && s.target.count > 0)
    && (s.target.NoTarget? && s.targetSeen != {} ==> Claims(s) == 0)
  }

  ghost predicate Inv(s: State) {
    && KeysOk(s)
    && TargetOk(s)
    && StageOk(s)
    && Exclusive(s)
    && CountExact(s)
    && forall c :: c in s.clients ==> PhaseOk(s, s.clients[c])
  }

  lemma {:induction false} InitialInv(path: Name)
    ensures Inv(Initial(path))
  {
  }

  /** A step that concerns name n only. */
  ghost predicate OnlyName(s: State, s': State, n: Name) {
    && (forall m :: m != n ==> (m in s'.entries <==> m in s.entries))
    && (forall m :: m != n ==> (m in s'.keys <==> m in s.keys) && (m in s.keys ==> s'.keys[m] == s.keys[m]))
    && (n in s'.keys ==> s'.keys[n].version == s.next || (n in s.keys && s'.keys[n] == s.keys[n]))
    && s.targetSeen <= s'.targetSeen
    && s.posixSeen <= s'.posixSeen
    && s.next <= s'.next
  }

  lemma {:induction false} OthersKeepPhase(s: State, s': State, n: Name, p: Phase)
    requires PhaseOk(s, p) && OnlyName(s, s', n) && !Holds(p, n)
    ensures PhaseOk(s', p)
  {
  }

  /** The clients other than c are not disturbed by a step of c on a name that c alone holds. */
  lemma {:induction false} Assemble(s: State, s': State, c: ClientId, n: Name)
    requires Inv(s) && OnlyName(s, s', n)
    requires s'.clients == s.clients[c := PhaseOf(s', c)]
    requires forall d :: d in s.clients && d != c ==> !Holds(s.clients[d], n)
    requires forall m :: Holds(PhaseOf(s', c), m) ==> m == n || Holds(PhaseOf(s, c), m)
    requires PhaseOk(s', PhaseOf(s', c)) && KeysOk(s') && TargetOk(s') && StageOk(s') && CountExact(s')
    ensures Inv(s')
  {
    forall d | d in s'.clients ensures PhaseOk(s', s'.clients[d]) {
      if d != c {
        OthersKeepPhase(s, s', n, s.clients[d]);
      }
    }
    assert Exclusive(s');
  }

  /** Nobody else holds a name that c holds, nor one that is free or lives on. */
  lemma {:induction false} NotHeld(s: State, c: ClientId, n: Name)
    requires Inv(s)
    requires n !in s.entries || Holds(PhaseOf(s, c), n) || (n in s.keys && s.keys[n] != Source(s.keys[n].version, 0))
    ensures forall d :: d in s.clients && d != c ==> !Holds(s.clients[d], n)
  {
    forall d | d in s.clients && d != c ensures !Holds(s.clients[d], n) {
      assert PhaseOk(s, s.clients[d]);
    }
  }

  /** A step of c that leaves names and their keys alone. */
  lemma {:induction false} AssembleLocal(s: State, s': State, c: ClientId)
    requires Inv(s) && s'.entries == s.entries && s'.keys == s.keys && s'.posixSeen == s.posixSeen
    requires s.targetSeen <= s'.targetSeen && s.next <= s'.next
    requires s'.clients == s.clients[c := PhaseOf(s', c)]
    requires forall m :: Holds(PhaseOf(s', c), m) ==> Holds(PhaseOf(s, c), m)
    requires PhaseOk(s', PhaseOf(s', c)) && TargetOk(s') && StageOk(s') && CountExact(s')
    ensures Inv(s')
  {
    forall d | d in s'.clients ensures PhaseOk(s', s'.clients[d]) {
      if d != c { assert PhaseOk(s, s.clients[d]); }
    }
    assert Exclusive(s');
  }

  lemma {:induction false} LocalClaims(s: State, s': State, c: ClientId)
    requires s'.clients == s.clients[c := PhaseOf(s', c)] && s'.keys == s.keys
    ensures Claims(s') == Claims(s) + Waits(PhaseOf(s', c)) - Waits(PhaseOf(s, c))
  {
    ClaimsAfter(s, s', c, "");
  }

  /** The source that forwards to the future target is the only claim there is. */
  lemma {:induction false} ForwardingClaims(s: State)
    requires Inv(s) && s.stage.Forwarding?
    ensures Claims(s) == 1
  {
    assert LiveSources(s) == {s.stage.path};
    forall c | c in s.clients ensures !IsPending(s.clients[c]) {
      assert PhaseOk(s, s.clients[c]);
    }
    assert Pending(s) == {};
  }

  /** A copy with the target's version has the target's count. */
  lemma {:induction false} CopyCurrent(s: State, v: Version, k: nat)
    requires Inv(s) && (v, k) in s.targetSeen && s.target.Target? && s.target.version == v
    ensures s.target.count == k
  {
  }

  /** A step of c on one name that leaves the target and what counts on it alone. */
  lemma {:induction false} OneName(s: State, s': State, c: ClientId, n: Name)
    requires Inv(s) && OnlyName(s, s', n) && s'.clients == s.clients[c := PhaseOf(s', c)]
    requires n !in s.entries || Holds(PhaseOf(s, c), n) || (n in s.keys && s.keys[n] != Source(s.keys[n].version, 0))
    requires forall m :: Holds(PhaseOf(s', c), m) ==> m == n || Holds(PhaseOf(s, c), m)
    requires s'.target == s.target && s'.targetSeen == s.targetSeen
    requires Live(s', n) + Waits(PhaseOf(s', c)) == Live(s, n) + Waits(PhaseOf(s, c))
    requires PhaseOk(s', PhaseOf(s', c)) && KeysOk(s') && StageOk(s')
    ensures Inv(s')
  {
    NotHeld(s, c, n);
    ClaimsAfter(s, s', c, n);
    Assemble(s, s', c, n);
  }

  /** The directory entry of a name is put or removed. */
  lemma {:induction false} EntryKeepsInv(s: State, e: Event)
    requires Inv(s) && Enabled(s, e) && (e.ReserveName? || e.UndoEntry? || e.DeleteEntry?)
    ensures Inv(Step(s, e))
  {
    assert PhaseOk(s, PhaseOf(s, e.client));
    if Step(s,
      e) != s { OneName(s, Step(s, e), e.client, if e.ReserveName? then e.name else PhaseOf(s, e.client).name); }
  }

  /** The source of a name is written. */
  lemma {:induction false} SourceWriteKeepsInv(s: State, e: Event)
    requires Inv(s) && Enabled(s, e) && (e.CreateSource? || e.ResetSource?)
    ensures Inv(Step(s, e))
  {
    assert PhaseOk(s, PhaseOf(s, e.client));
    if Step(s, e) != s { OneName(s, Step(s, e), e.client, PhaseOf(s, e.client).name); }
  }

  /** The metadata key of a name is deleted. */
  lemma {:induction false} KeyDeletionKeepsInv(s: State, e: Event)
    requires Inv(s) && Enabled(s, e) && (e.DeleteSource? || e.DeletePosix?)
    ensures Inv(Step(s, e))
  {
    assert PhaseOk(s, PhaseOf(s, e.client));
    if Step(s,
      e) != s { OneName(s, Step(s, e), e.client, if e.DeletePosix? then e.name else PhaseOf(s, e.client).name); }
  }

  /** An ordinary file is changed. */
  lemma {:induction false} TouchPosixKeepsInv(s: State, e: Event)
    requires Inv(s) && Enabled(s, e) && e.TouchPosix?
    ensures Inv(Step(s, e))
  {
    assert PhaseOk(s, PhaseOf(s, e.client));
    if Step(s, e) != s { OneName(s, Step(s, e), e.client, e.name); }
  }

  /** A client moves on without a write. */
  lemma {:induction false} MovePhase(s: State, c: ClientId, p: Phase)
    requires Inv(s) && PhaseOk(s, p) && Waits(p) == Waits(PhaseOf(s, c))
    requires !p.Forwarded? && !PhaseOf(s, c).Forwarded?
    requires forall m :: Holds(p, m) ==> Holds(PhaseOf(s, c), m)
    ensures Inv(To(s, c, p))
  {
    LocalClaims(s, To(s, c, p), c);
    AssembleLocal(s, To(s, c, p), c);
  }

  /** A client writes the target with the count that everything counting on it adds up to. */
  lemma {:induction false} MoveWithTarget(s: State, c: ClientId, count: nat, p: Phase)
    requires Inv(s) && s.stage.Linked? && !p.Forwarded?
    requires count == Claims(s) + Waits(p) - Waits(PhaseOf(s, c)) && count > 0
    requires PhaseOk(WriteTarget(s, count), p)
    requires forall m :: Holds(p, m) ==> Holds(PhaseOf(s, c), m)
    ensures Inv(To(WriteTarget(s, count), c, p))
  {
    var s' := To(WriteTarget(s, count), c, p);
    LocalClaims(s, s', c);
    AssembleLocal(s, s', c);
  }

  lemma {:induction false} UseTargetKeepsInv(s: State, e: Event)
    requires Inv(s) && Enabled(s, e) && e.UseTarget?
    ensures Inv(Step(s, e))
  {
    var p := PhaseOf(s, e.client);
    assert PhaseOk(s, p);
    MovePhase(s, e.client, Ready(p.name, p.copy.version, p.copy.count));
  }

  lemma {:induction false} ReadSourceKeepsInv(s: State, e: Event)
    requires Inv(s) && Enabled(s, e) && e.ReadSource?
    ensures Inv(Step(s, e))
  {
    MovePhase(s, e.client, SourceRead(e.name, e.version, e.count, s.keys[e.name].version));
  }

  lemma {:induction false} ForwardSourceKeepsInv(s: State, e: Event)
    requires Inv(s) && Enabled(s, e) && e.ForwardSource?
    ensures Inv(Step(s, e))
  {
    var s' := Step(s, e);
    var p := PhaseOf(s, e.client);
    assert PhaseOk(s, p);
    if HasVersion(s, p.copy.path, p.copy.version) {
      var n := p.copy.path;
      NotHeld(s, e.client, n);
      ClaimsAfter(s, s', e.client, n);
      Assemble(s, s', e.client, n);
    } else {
      MovePhase(s, e.client, Undo(p.name));
    }
  }

  lemma {:induction false} ZeroSourceKeepsInv(s: State, e: Event)
    requires Inv(s) && Enabled(s, e) && e.ZeroSource?
    ensures Inv(Step(s, e))
  {
    var s' := Step(s, e);
    var p := PhaseOf(s, e.client);
    assert PhaseOk(s, p);
    if HasVersion(s, p.name, p.sourceVersion) {
      NotHeld(s, e.client, p.name);
      ClaimsAfter(s, s', e.client, p.name);
      Assemble(s, s', e.client, p.name);
    } else {
      MovePhase(s, e.client, Idle);
    }
  }

  lemma {:induction false} CreateTargetKeepsInv(s: State, e: Event)
    requires Inv(s) && Enabled(s, e) && e.CreateTarget?
    ensures Inv(Step(s, e))
  {
    var s' := Step(s, e);
    var p := PhaseOf(s, e.client);
    assert PhaseOk(s, p);
    if s' != s {
      ForwardingClaims(s);
      LocalClaims(s, s', e.client);
      AssembleLocal(s, s', e.client);
    }
  }

  lemma {:induction false} CountUpKeepsInv(s: State, e: Event)
    requires Inv(s) && Enabled(s, e) && e.CountUp?
    ensures Inv(Step(s, e))
  {
    var p := PhaseOf(s, e.client);
    assert PhaseOk(s, p);
    if s.target.Target? && s.target.version == p.version {
      CopyCurrent(s, p.version, p.count);
      MoveWithTarget(s, e.client, p.count + 1, Counted(p.name));
    } else {
      MovePhase(s, e.client, Undo(p.name));
    }
  }

  lemma {:induction false} ZeroedCopy(s: State, c: ClientId, p: Phase)
    requires Inv(s) && p == PhaseOf(s, c) && p.Zeroed? && s.target.Target? && s.target.version == p.version
    ensures s.target.count == p.count
  {
    assert PhaseOk(s, p);
    CopyCurrent(s, p.version, p.count);
  }

  /** The last one takes the target away. */
  lemma {:induction false} LastCountDown(s: State, c: ClientId, p: Phase)
    requires Inv(s) && p == PhaseOf(s, c) && p.Zeroed? && s.target.Target? && s.target.count == 1
    ensures Inv(To(s.(target := NoTarget), c, Dropped(p.name, p.sourceVersion)))
  {
    assert PhaseOk(s, p);
    var s' := To(s.(target := NoTarget), c, Dropped(p.name, p.sourceVersion));
    LocalClaims(s, s', c);
    AssembleLocal(s, s', c);
  }

  lemma {:induction false} EarlierCountDown(s: State, c: ClientId, p: Phase)
    requires Inv(s) && p == PhaseOf(s, c) && p.Zeroed? && s.target.Target? && s.target.count > 1
    ensures Inv(To(WriteTarget(s, s.target.count - 1), c, Dropped(p.name, p.sourceVersion)))
  {
    assert PhaseOk(s, p);
    MoveWithTarget(s, c, s.target.count - 1, Dropped(p.name, p.sourceVersion));
  }

  lemma {:induction false} CountDownFails(s: State, c: ClientId, p: Phase)
    requires Inv(s) && p == PhaseOf(s, c) && p.Zeroed?
    ensures Inv(To(s, c, Reset(p.name, p.sourceVersion)))
  {
    assert PhaseOk(s, p);
    MovePhase(s, c, Reset(p.name, p.sourceVersion));
  }

  lemma {:induction false} CountDownKeepsInv(s: State, c: ClientId, p: Phase)
    requires Inv(s) && p == PhaseOf(s, c) && p.Zeroed?
    ensures Inv(CountedDown(s, c, p))
  {
    var s' := CountedDown(s, c, p);
    if s.target.Target? && s.target.version == p.version && p.count > 0 {
      ZeroedCopy(s, c, p);
      if p.count == 1 {
        assert s' == To(s.(target := NoTarget), c, Dropped(p.name, p.sourceVersion));
        LastCountDown(s, c, p);
      } else {
        assert s' == To(WriteTarget(s, s.target.count - 1), c, Dropped(p.name, p.sourceVersion));
        EarlierCountDown(s, c, p);
      }
    } else {
      assert s' == To(s, c, Reset(p.name, p.sourceVersion));
      CountDownFails(s, c, p);
    }
  }

  lemma {:induction false} TouchTargetKeepsInv(s: State, e: Event)
    requires Inv(s) && Enabled(s, e) && e.TouchTarget?
    ensures Inv(Step(s, e))
  {
    if s.target.Target? && s.target.version == e.version {
      CopyCurrent(s, e.version, e.count);
      MoveWithTarget(s, e.client, e.count, Idle);
    }
  }

  lemma {:induction false} StepKeepsInv(s: State, e: Event)
    requires Inv(s) && Enabled(s, e)
    ensures Inv(Step(s, e))
  {
    match e
    case ReserveName(_, _, _) => EntryKeepsInv(s, e);
    case UseTarget(_) => UseTargetKeepsInv(s, e);
    case ForwardSource(_) => ForwardSourceKeepsInv(s, e);
    case CreateTarget(_) => CreateTargetKeepsInv(s, e);
    case CountUp(_) => CountUpKeepsInv(s, e);
    case CreateSource(_) => SourceWriteKeepsInv(s, e);
    case UndoEntry(_) => EntryKeepsInv(s, e);
    case ReadSource(_, _, _, _) => ReadSourceKeepsInv(s, e);
    case ZeroSource(_) => ZeroSourceKeepsInv(s, e);
    case CountDown(_) => CountDownKeepsInv(s, e.client, PhaseOf(s, e.client));
    case ResetSource(_) => SourceWriteKeepsInv(s, e);
    case DeleteSource(_) => KeyDeletionKeepsInv(s, e);
    case DeleteEntry(_) => EntryKeepsInv(s, e);
    case DeletePosix(_, _, _) => KeyDeletionKeepsInv(s, e);
    case TouchPosix(_, _, _) => TouchPosixKeepsInv(s, e);
    case TouchTarget(_, _, _) => TouchTargetKeepsInv(s, e);
  }

  lemma {:induction false} RunKeepsInv(s: State, events: seq<Event>, s': State)
    requires Inv(s) && Run(s, events, s')
    ensures Inv(s')
    decreases |events|
  {
    if events != [] {
      StepKeepsInv(s, events[0]);
      RunKeepsInv(Step(s, events[0]), events[1..], s');
    }
  }

  // ---------------------------------------------------------------------------------------------
  // Guarantees over all runs
  // ---------------------------------------------------------------------------------------------

  /** The link count is the number of live names plus the unlinks and links in flight, and the target is only
      ever missing when nothing refers to it any more. */
  lemma {:induction false} LinkCountExact(path: Name, events: seq<Event>, s: State)
    requires Run(Initial(path), events, s)
    ensures s.target.Target? ==> s.target.count == |LiveSources(s)| + |PendingUnlinks(s)| + |PendingLinks(s)|
    ensures s.target.NoTarget? && s.targetSeen != {} ==>
      LiveSources(s) == {} && PendingUnlinks(s) == {} && PendingLinks(s) == {}
  {
    InitialInv(path);
    RunKeepsInv(Initial(path), events, s);
    assert Pending(s) == PendingUnlinks(s) + PendingLinks(s);
    assert PendingUnlinks(s) !! PendingLinks(s);
  }

  /** A live name leads to its target, except while the client that turned it into a source has not created the target
    yet. */
  lemma {:induction false} LiveNamesReachTarget(path: Name, events: seq<Event>, s: State, n: Name)
    requires Run(Initial(path), events, s) && n in LiveSources(s)
    ensures s.target.NoTarget? <==> exists c :: c in s.clients && s.clients[c].Forwarded?
  {
    InitialInv(path);
    RunKeepsInv(Initial(path), events, s);
    LinkCountExact(path, events, s);
    assert s.keys[n].Source?;
  }

  /** The exception happens: after the first two requests of a link, the old name is live and has no target. */
  lemma {:induction false} TargetWindow(path: Name, name: Name)
    requires name != path
    ensures
      var e1, e2 := ReserveName(0, name, PosixCopy(path, 0)), ForwardSource(0);
      && Enabled(Initial(path), e1) && Enabled(Step(Initial(path), e1), e2)
      && var s := Step(Step(Initial(path), e1), e2);
      path in LiveSources(s) && s.target.NoTarget?
  {}

  /** An unlink that has zeroed its source still finds the target, so its decrement fails only because another
      client changed the target, never because the target is gone. */
  lemma {:induction false} PendingUnlinkFindsTarget(path: Name, events: seq<Event>, s: State, c: ClientId)
    requires Run(Initial(path), events, s) && c in s.clients && s.clients[c].Zeroed?
    ensures s.target.Target? && s.target.count > 0
  {
    InitialInv(path);
    RunKeepsInv(Initial(path), events, s);
    assert PhaseOk(s, s.clients[c]);
    assert c in Pending(s);
  }

  /** No write that must not fail ever fails: nobody else writes a name or source that a client has claimed. */
  lemma {:induction false} MandatoryWritesSucceed(path: Name, events: seq<Event>, s: State, e: Event)
    requires Run(Initial(path), events, s) && Enabled(s, e)
    ensures !MandatoryWriteFails(s, e)
  {
    InitialInv(path);
    RunKeepsInv(Initial(path), events, s);
    assert PhaseOk(s, PhaseOf(s, e.client));
  }
}
