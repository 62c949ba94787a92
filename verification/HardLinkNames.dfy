/** Which names hard links leave in the directory, and what linking and unlinking do when nobody interferes. */
module HardLinkNames {
  import opened HardLinks

  // ---------------------------------------------------------------------------------------------
  // Directory entries
  // ---------------------------------------------------------------------------------------------

  /** Some client is in the middle of linking or unlinking the name. */
  ghost predicate Held(s: State, n: Name) {
    exists c :: c in s.clients && Holds(s.clients[c], n)
  }

  /** No directory entry is left behind, and the version of an ordinary file is one that was handed out. */
  ghost predicate NamesOk(s: State) {
    && (forall n :: n in s.entries ==> n in s.keys || Held(s, n))
    && (forall n :: n in s.keys && s.keys[n].Posix? ==> s.keys[n].version in s.posixSeen)
  }

  /** A client that holds a name goes on holding it until the name has its key or is gone. */
  lemma {:induction false} OwnName(s: State, e: Event, n: Name)
    requires PhaseOk(s, PhaseOf(s, e.client)) && Enabled(s, e) && Holds(PhaseOf(s, e.client), n)
    requires n in Step(s, e).entries && n !in Step(s, e).keys
    ensures e.client in Step(s, e).clients && Holds(Step(s, e).clients[e.client], n)
  {}

  /** A client that takes a name from the directory or deletes its key holds it. */
  lemma {:induction false} NewName(s: State, e: Event, n: Name)
    requires PhaseOk(s, PhaseOf(s, e.client)) && Enabled(s, e) && (n !in s.entries || n in s.keys)
    requires n in Step(s, e).entries && n !in Step(s, e).keys
    ensures e.client in Step(s, e).clients && Holds(Step(s, e).clients[e.client], n)
  {}

  lemma {:induction false} OthersStay(s: State, e: Event, c: ClientId)
    requires Enabled(s, e) && c in s.clients && c != e.client
    ensures c in Step(s, e).clients && Step(s, e).clients[c] == s.clients[c]
  {}

  lemma {:induction false} StepKeepsName(s: State, e: Event, n: Name)
    requires PhaseOk(s, PhaseOf(s, e.client)) && (n in s.entries ==> n in s.keys || Held(s, n))
    requires Enabled(s, e) && n in Step(s, e).entries
    ensures n in Step(s, e).keys || Held(Step(s, e), n)
  {
    if n !in Step(s, e).keys {
      if n in s.entries && n !in s.keys {
        var c :| c in s.clients && Holds(s.clients[c], n);
        if c == e.client { OwnName(s, e, n); } else { OthersStay(s, e, c); }
      } else {
        NewName(s, e, n);
      }
    }
  }

  lemma {:induction false} StepKeepsNames(s: State, e: Event)
    requires Inv(s) && NamesOk(s) && Enabled(s, e)
    ensures NamesOk(Step(s, e))
  {
    var s' := Step(s, e);
    assert PhaseOk(s, PhaseOf(s, e.client));
    forall n | n in s'.entries ensures n in s'.keys || Held(s', n) { StepKeepsName(s, e, n); }
    forall n | n in s'.keys && s'.keys[n].Posix? ensures s'.keys[n].version in s'.posixSeen {
      StepKeepsPosix(s, e, n);
    }
  }

  lemma {:induction false} StepKeepsPosix(s: State, e: Event, n: Name)
    requires NamesOk(s) && Enabled(s, e) && n in Step(s, e).keys && Step(s, e).keys[n].Posix?
    ensures Step(s, e).keys[n].version in Step(s, e).posixSeen
  {}

  lemma {:induction false} RunKeepsNames(s: State, events: seq<Event>, s': State)
    requires Inv(s) && NamesOk(s) && Run(s, events, s')
    ensures Inv(s') && NamesOk(s')
    decreases |events|
  {
    if events != [] {
      StepKeepsInv(s, events[0]);
      StepKeepsNames(s, events[0]);
      RunKeepsNames(Step(s, events[0]), events[1..], s');
    }
  }

  lemma {:induction false} Reached(path: Name, events: seq<Event>, s: State)
    requires Run(Initial(path), events, s)
    ensures Inv(s) && NamesOk(s)
  {
    InitialInv(path);
    RunKeepsNames(Initial(path), events, s);
  }

  /** A name is in the directory exactly when it has metadata or some client is working on it; with all clients idle,
    the directory has exactly the names that can be looked up. */
  lemma {:induction false} NamesExact(path: Name, events: seq<Event>, s: State)
    requires Run(Initial(path), events, s)
    ensures forall n :: n in s.entries <==> n in s.keys || Held(s, n)
    ensures (forall c :: c in s.clients ==> s.clients[c].Idle?) ==> s.entries == s.keys.Keys
  {
    Reached(path, events, s);
    forall n | Held(s, n) ensures n in s.entries {
      var c :| c in s.clients && Holds(s.clients[c], n);
      assert PhaseOk(s, s.clients[c]);
    }
  }

  // ---------------------------------------------------------------------------------------------
  // Without interference
  // ---------------------------------------------------------------------------------------------

  lemma {:induction false} RunFirst(s: State, e: Event, rest: seq<Event>, s': State)
    requires Enabled(s, e) && Run(Step(s, e), rest, s')
    ensures Run(s, [e] + rest, s')
  {
    assert ([e] + rest)[1..] == rest;
  }

  lemma {:induction false} RunOn(s: State, first: seq<Event>, mid: State, rest: seq<Event>, s': State)
    requires Run(s, first, mid) && Run(mid, rest, s')
    ensures Run(s, first + rest, s')
    decreases |first|
  {
    if first == [] {
      assert first + rest == rest;
    } else {
      RunOn(Step(s, first[0]), first[1..], mid, rest, s');
      assert (first + rest)[1..] == first[1..] + rest;
    }
  }

  /** What a client that looks a name up can rely on. */
  lemma {:induction false} NameFacts(path: Name, events: seq<Event>, s: State, n: Name)
    requires Run(Initial(path), events, s)
    ensures n in s.keys ==> n in s.entries
    ensures n in s.keys && s.keys[n].Posix? ==> s.keys[n].version in s.posixSeen && s.target.NoTarget?
    ensures s.target.Target? ==> (s.target.version, s.target.count) in s.targetSeen && s.target.count > 0
  {
    Reached(path, events, s);
  }

  /** All but client c and the supply of versions is as given. */
  predicate Leaves(s': State, c: ClientId, entries: set<Name>, keys: set<Name>) {
    s'.entries == entries && s'.keys.Keys == keys && PhaseOf(s', c).Idle?
  }

  predicate LiveAt(s: State, n: Name) {
    n in s.keys && s.keys[n].Source? && s.keys[n].count == 1
  }

  ghost predicate OtherKeysSame(s: State, s': State, changed: set<Name>) {
    forall n :: n !in changed ==> (n in s'.keys <==> n in s.keys) && (n in s.keys ==> s'.keys[n] == s.keys[n])
  }

  predicate Counts(s: State, count: nat) {
    if count == 0 then s.target.NoTarget? else s.target.Target? && s.target.count == count
  }

  /** Unlinking an ordinary file: name and metadata are gone. */
  lemma {:induction false} UnlinkFile(path: Name, events: seq<Event>, s: State, c: ClientId, n: Name)
    returns (s': State)
    requires Run(Initial(path), events, s) && PhaseOf(s, c).Idle? && n in s.keys && s.keys[n].Posix?
    ensures Run(s, [DeletePosix(c, n, s.keys[n].version), DeleteEntry(c)], s')
    ensures Leaves(s', c, s.entries - {n}, s.keys.Keys - {n}) && OtherKeysSame(s, s', {n}) && s'.target == s.target
  {
    NameFacts(path, events, s, n);
    var e1, e2 := DeletePosix(c, n, s.keys[n].version), DeleteEntry(c);
    var s1 := Step(s, e1);
    s' := Step(s1, e2);
    RunFirst(s1, e2, [], s');
    RunFirst(s, e1, [e2], s');
  }

  function UnlinkRequests(s: State, c: ClientId, n: Name): seq<Event>
    requires s.target.Target?
  {
    [ReadSource(c, n, s.target.version, s.target.count), ZeroSource(c), CountDown(c), DeleteSource(c), DeleteEntry(c)]
  }

  /** Unlinking a hard link: the name and its source are gone, the target counts one less and goes with the last. */
  lemma {:induction false} UnlinkSource(path: Name, events: seq<Event>, s: State, c: ClientId, n: Name)
    returns (s': State)
    requires Run(Initial(path), events, s) && PhaseOf(s, c).Idle? && LiveAt(s, n) && s.target.Target?
    ensures Run(s, UnlinkRequests(s, c, n), s')
    ensures Leaves(s', c, s.entries - {n}, s.keys.Keys - {n}) && OtherKeysSame(s, s', {n})
    ensures s.target.count > 0 && Counts(s', s.target.count - 1)
  {
    NameFacts(path, events, s, n);
    var es := UnlinkRequests(s, c, n);
    var s3 := UnlinkCounted(s, c, n);
    var s4 := Step(s3, es[3]);
    s' := Step(s4, es[4]);
    RunFirst(s4, es[4], [], s');
    RunFirst(s3, es[3], [es[4]], s');
    RunOn(s, es[..3], s3, es[3..], s');
    assert es == es[..3] + es[3..];
  }

  lemma {:induction false} UnlinkCounted(s: State, c: ClientId, n: Name) returns (s3: State)
    requires PhaseOf(s, c).Idle? && LiveAt(s, n) && s.target.Target? && s.target.count > 0
    requires (s.target.version, s.target.count) in s.targetSeen
    ensures Run(s, UnlinkRequests(s, c, n)[..3], s3) && PhaseOf(s3, c) == Dropped(n, s.next)
    ensures s3.keys == s.keys[n := Source(s.next, 0)] && s3.entries == s.entries && Counts(s3, s.target.count - 1)
  {
    var es := UnlinkRequests(s, c, n);
    var s2 := UnlinkZeroed(s, c, n, s.target.version, s.target.count);
    s3 := Step(s2, es[2]);
    RunFirst(s2, es[2], [], s3);
    RunOn(s, [es[0], es[1]], s2, [es[2]], s3);
    assert es[..3] == [es[0], es[1]] + [es[2]];
  }

  lemma {:induction false} UnlinkZeroed(s: State, c: ClientId, n: Name, v: Version, k: nat) returns (s2: State)
    requires PhaseOf(s, c).Idle? && LiveAt(s, n) && (v, k) in s.targetSeen
    ensures Run(s, [ReadSource(c, n, v, k), ZeroSource(c)], s2)
    ensures s2.keys == s.keys[n := Source(s.next, 0)] && s2.entries == s.entries && s2.target == s.target
    ensures PhaseOf(s2, c) == Zeroed(n, v, k, s.next)
  {
    var e1, e2 := ReadSource(c, n, v, k), ZeroSource(c);
    var s1 := Step(s, e1);
    s2 := Step(s1, e2);
    RunFirst(s1, e2, [], s2);
    RunFirst(s, e1, [e2], s2);
  }

  function LinkRequests(c: ClientId, n: Name, copy: Copy): seq<Event> {
    (if copy.PosixCopy? then [ReserveName(c, n, copy), ForwardSource(c), CreateTarget(c)]
     else [ReserveName(c, n, copy), UseTarget(c)])
    + [CountUp(c), CreateSource(c)]
  }

  /** The first hard link to a file: both names are sources, and the target counts two. */
  lemma {:induction false} LinkFile(path: Name, events: seq<Event>, s: State, c: ClientId, file: Name, n: Name)
    returns (s': State)
    requires Run(Initial(path), events, s) && PhaseOf(s, c).Idle? && file in s.keys && s.keys[file].Posix?
    requires n !in s.entries
    ensures Run(s, LinkRequests(c, n, PosixCopy(file, s.keys[file].version)), s')
    ensures Leaves(s', c, s.entries + {n}, s.keys.Keys + {n}) && OtherKeysSame(s, s', {n, file})
    ensures LiveAt(s', n) && LiveAt(s', file) && Counts(s', 2)
  {
    NameFacts(path, events, s, n);
    NameFacts(path, events, s, file);
    var es := LinkRequests(c, n, PosixCopy(file, s.keys[file].version));
    var s3 := LinkForwarded(s, c, file, n);
    var s4 := Step(s3, es[3]);
    s' := Step(s4, es[4]);
    RunFirst(s4, es[4], [], s');
    RunFirst(s3, es[3], [es[4]], s');
    RunOn(s, es[..3], s3, es[3..], s');
    assert es == es[..3] + es[3..];
  }

  lemma {:induction false} LinkForwarded(s: State, c: ClientId, file: Name, n: Name) returns (s3: State)
    requires PhaseOf(s, c).Idle? && file in s.keys && s.keys[file].Posix? && s.keys[file].version in s.posixSeen
    requires n !in s.entries && s.target.NoTarget?
    ensures Run(s, LinkRequests(c, n, PosixCopy(file, s.keys[file].version))[..3], s3)
    ensures s3.keys == s.keys[file := Source(s.next, 1)] && s3.entries == s.entries + {n} && Counts(s3, 1)
    ensures PhaseOf(s3, c) == Ready(n, s3.target.version, 1)
  {
    var es := LinkRequests(c, n, PosixCopy(file, s.keys[file].version));
    assert es[..3] == [es[0], es[1], es[2]];
    var s1 := Step(s, es[0]);
    var s2 := Step(s1, es[1]);
    assert PhaseOf(s2, c) == Forwarded(n, file);
    s3 := Step(s2, es[2]);
    RunFirst(s2, es[2], [], s3);
    RunFirst(s1, es[1], [es[2]], s3);
    RunFirst(s, es[0], [es[1], es[2]], s3);
  }

  /** A further hard link: the name is a source, and the target counts one more. */
  lemma {:induction false} LinkTarget(path: Name, events: seq<Event>, s: State, c: ClientId, n: Name)
    returns (s': State)
    requires Run(Initial(path), events, s) && PhaseOf(s, c).Idle? && n !in s.entries && s.target.Target?
    ensures Run(s, LinkRequests(c, n, TargetCopy(s.target.version, s.target.count)), s')
    ensures Leaves(s', c, s.entries + {n}, s.keys.Keys + {n}) && OtherKeysSame(s, s', {n})
    ensures LiveAt(s', n) && Counts(s', s.target.count + 1)
  {
    NameFacts(path, events, s, n);
    var copy := TargetCopy(s.target.version, s.target.count);
    var s2 := LinkReady(s, c, n, copy.version, copy.count);
    var s3 := Step(s2, CountUp(c));
    s' := Step(s3, CreateSource(c));
    RunFirst(s3, CreateSource(c), [], s');
    RunFirst(s2, CountUp(c), [CreateSource(c)], s');
    RunOn(s, [ReserveName(c, n, copy), UseTarget(c)], s2, [CountUp(c), CreateSource(c)], s');
  }

  lemma {:induction false} LinkReady(s: State, c: ClientId, n: Name, v: Version, k: nat) returns (s2: State)
    requires PhaseOf(s, c).Idle? && n !in s.entries && (v, k) in s.targetSeen
    ensures Run(s, [ReserveName(c, n, TargetCopy(v, k)), UseTarget(c)], s2)
    ensures s2.keys == s.keys && s2.entries == s.entries + {n} && s2.target == s.target
    ensures PhaseOf(s2, c) == Ready(n, v, k)
  {
    var e1, e2 := ReserveName(c, n, TargetCopy(v, k)), UseTarget(c);
    var s1 := Step(s, e1);
    s2 := Step(s1, e2);
    RunFirst(s1, e2, [], s2);
    RunFirst(s, e1, [e2], s2);
  }

  /** A link that is made with an outdated copy of the target leaves everything as it was. */
  lemma {:induction false} OutdatedLink(s: State, c: ClientId, n: Name, v: Version, k: nat) returns (s': State)
    requires PhaseOf(s, c).Idle? && n !in s.entries && (v, k) in s.targetSeen
    requires !(s.target.Target? && s.target.version == v)
    ensures Run(s, [ReserveName(c, n, TargetCopy(v, k)), UseTarget(c), CountUp(c), UndoEntry(c)], s')
    ensures s'.entries == s.entries && s'.keys == s.keys && s'.target == s.target && PhaseOf(s', c).Idle?
  {
    var e3, e4 := CountUp(c), UndoEntry(c);
    var s2 := LinkReady(s, c, n, v, k);
    var s3 := Step(s2, e3);
    s' := Step(s3, e4);
    RunFirst(s3, e4, [], s');
    RunFirst(s2, e3, [e4], s');
    var first := [ReserveName(c, n, TargetCopy(v, k)), UseTarget(c)];
    RunOn(s, first, s2, [e3, e4], s');
    assert first + [e3, e4] == [ReserveName(c, n, TargetCopy(v, k)), UseTarget(c), e3, e4];
  }

  /** An unlink with an outdated copy of the target leaves the name as live as it was. */
  lemma {:induction false} OutdatedUnlink(s: State, c: ClientId, n: Name, v: Version, k: nat) returns (s': State)
    requires PhaseOf(s, c).Idle? && LiveAt(s, n) && (v, k) in s.targetSeen
    requires !(s.target.Target? && s.target.version == v)
    ensures Run(s, [ReadSource(c, n, v, k), ZeroSource(c), CountDown(c), ResetSource(c)], s')
    ensures Leaves(s', c, s.entries, s.keys.Keys) && OtherKeysSame(s, s', {n}) && LiveAt(s', n) && s'.target == s.target
  {
    var e3, e4 := CountDown(c), ResetSource(c);
    var s2 := UnlinkZeroed(s, c, n, v, k);
    var s3 := Step(s2, e3);
    s' := Step(s3, e4);
    RunFirst(s3, e4, [], s');
    RunFirst(s2, e3, [e4], s');
    RunOn(s, [ReadSource(c, n, v, k), ZeroSource(c)], s2, [e3, e4], s');
    assert [ReadSource(c, n, v, k), ZeroSource(c)] + [e3, e4] == [ReadSource(c, n, v, k), ZeroSource(c), e3, e4];
  }

  /** A change of an ordinary file gives it a new version, with which links that are made with older copies fail. */
  lemma {:induction false} ChangeFile(
      path: Name, events: seq<Event>, s: State, c: ClientId, n: Name) returns (s': State)
    requires Run(Initial(path), events, s) && PhaseOf(s, c).Idle? && n in s.keys && s.keys[n].Posix?
    ensures Run(s, [TouchPosix(c, n, s.keys[n].version)], s') && n in s'.keys && s'.keys[n].Posix?
    ensures Leaves(s', c, s.entries, s.keys.Keys) && OtherKeysSame(s, s', {n}) && s'.keys[n].version !in s.posixSeen
  {
    Reached(path, events, s);
    var e := TouchPosix(c, n, s.keys[n].version);
    s' := Step(s, e);
    RunFirst(s, e, [], s');
  }

  /** A link that is made with an outdated copy of an ordinary file leaves everything as it was. */
  lemma {:induction false} OutdatedFileLink(s: State, c: ClientId, file: Name, n: Name, v: Version) returns (s': State)
    requires PhaseOf(s, c).Idle? && n !in s.entries && v in s.posixSeen
      && !(file in s.keys && s.keys[file].version == v)
    ensures Run(s, [ReserveName(c, n, PosixCopy(file, v)), ForwardSource(c), UndoEntry(c)], s')
    ensures s'.entries == s.entries && s'.keys == s.keys && s'.target == s.target && PhaseOf(s', c).Idle?
  {
    var e1, e2, e3 := ReserveName(c, n, PosixCopy(file, v)), ForwardSource(c), UndoEntry(c);
    var s1 := Step(s, e1);
    var s2 := Step(s1, e2);
    s' := Step(s2, e3);
    RunFirst(s2, e3, [], s');
    RunFirst(s1, e2, [e3], s');
    RunFirst(s, e1, [e2, e3], s');
  }

  /** A change of the target gives it a new version and keeps its count. */
  lemma {:induction false} ChangeTarget(path: Name, events: seq<Event>, s: State, c: ClientId) returns (s': State)
    requires Run(Initial(path), events, s) && PhaseOf(s, c).Idle? && s.target.Target?
    ensures Run(s, [TouchTarget(c, s.target.version, s.target.count)], s') && s'.keys == s.keys
    ensures s'.entries == s.entries && PhaseOf(s', c).Idle? && s'.target.Target? && s'.target.count == s.target.count
    ensures forall k :: (s'.target.version, k) !in s.targetSeen
  {
    Reached(path, events, s);
    var e := TouchTarget(c, s.target.version, s.target.count);
    s' := Step(s, e);
    RunFirst(s, e, [], s');
  }
}
