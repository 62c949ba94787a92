/** The in-memory path map: which directory renames, links and permission changes a path has to be read through,
  and how a user path is turned into the key its metadata is stored under.
 */
module PathMap {
  import opened Prelude
  import Decimal
  import PathCodec
  import opened LogReplay

  datatype Kind = Move | Symlink | NoMapping | Reuse

  datatype Mapping = Mapping(kind: Kind, target: string, stamp: int)

  type Snapshot = map<string, Mapping>

  const NAME_MAX := 255
  const PATH_MAX := 4096
  const MAXSYMLINKS := 20
  const ENAMETOOLONG := -36
  const ELOOP := -40

  // ---------------------------------------------------------------------------------------------
  // Paths
  // ---------------------------------------------------------------------------------------------

  /** The position of the last '/', or -1. */
  function LastSlash(p: string): (r: int)
    ensures -1 <= r < |p|
    ensures r >= 0 ==> p[r] == '/'
    ensures forall i :: r < i < |p| ==> p[i] != '/'
  {
    if p == "" then -1 else if p[|p| - 1] == '/' then |p| - 1 else LastSlash(p[..|p| - 1])
  }

  /** q is p or one of the directories p lies in. */
  predicate Under(q: string, p: string) {
    q == p || (|q| < |p| && p[..|q|] == q && p[|q|] == '/')
  }

  predicate ShortNames(p: string) {
    var pos := LastSlash(p);
    |p| - 1 - pos <= NAME_MAX && (pos < 0 || ShortNames(p[..pos]))
  }

  /** What remains of a path below one of its directories. */
  predicate Suffix(x: string) {
    x == "" || x[0] == '/'
  }

  lemma {:induction false} UnderSplit(q: string, p: string)
    requires Under(q, p)
    ensures p == q + p[|q|..] && Suffix(p[|q|..])
  {
  }

  lemma {:induction false} UnderJoin(q: string, x: string)
    requires Suffix(x)
    ensures Under(q, q + x) && (q + x)[|q|..] == x
  {
  }

  /** Two directories of the same path lie in each other. */
  lemma {:induction false} UnderLinear(a: string, b: string, p: string)
    requires Under(a, p) && Under(b, p)
    ensures Under(a, b) || Under(b, a)
  {
    if |a| <= |b| {
      assert b[..|a|] == p[..|a|];
    } else {
      assert a[..|b|] == p[..|b|];
    }
  }

  /** Cutting off the last component visits exactly the proper directories. */
  lemma {:induction false} UnderParent(q: string, p: string)
    requires q != p
    ensures Under(q, p) <==> LastSlash(p) >= 0 && Under(q, p[..LastSlash(p)])
  {
    var pos := LastSlash(p);
    if Under(q, p) {
      assert |q| <= pos;
      assert p[..pos][..|q|] == p[..|q|];
    }
    if pos >= 0 && Under(q, p[..pos]) {
      assert q == p[..|q|];
    }
  }

  // ---------------------------------------------------------------------------------------------
  // Search
  // ---------------------------------------------------------------------------------------------

  datatype SearchResult = Nothing(stamp: int) | Found(path: string, stamp: int)

  predicate Followed(m: Snapshot, p: string, followReuse: bool, followSymlink: bool) {
    && p in m
    && !m[p].kind.NoMapping?
    && (m[p].kind.Symlink? ==> followSymlink)
    && (m[p].kind.Reuse? ==> followReuse)
  }

  function Search(m: Snapshot, p: string, stamp: int, followReuse: bool, followSymlink: bool): SearchResult
    decreases |p|
  {
    var seen := if p in m then Max(stamp, m[p].stamp) else stamp;
    var pos := LastSlash(p);
    if Followed(m, p, followReuse, followSymlink) then Found(p, seen)
    else if |p| - 1 - pos > NAME_MAX then Nothing(ENAMETOOLONG)
    else if pos < 0 then Nothing(seen)
    else Search(m, p[..pos], seen, followReuse, true)
  }

  /** The mapping at q may be followed when p is being resolved: a final symlink is left to the caller. */
  predicate MayFollow(m: Snapshot, p: string, q: string, followReuse: bool, followSymlink: bool) {
    Under(q, p) && Followed(m, q, followReuse, followSymlink || q != p)
  }

  /** What a search finds can be followed, and no longer directory of the path can. */
  lemma {:induction false} SearchFindsLongest(
      m: Snapshot, p: string, stamp: int, followReuse: bool, followSymlink: bool)
    ensures
      var r := Search(m, p, stamp, followReuse, followSymlink);
      r.Found? ==>
        && MayFollow(m, p, r.path, followReuse, followSymlink)
        && forall q :: MayFollow(m, p, q, followReuse, followSymlink) ==> |q| <= |r.path|
    decreases |p|
  {
    var pos := LastSlash(p);
    if !Followed(m, p, followReuse, followSymlink) && pos >= 0 && |p| - 1 - pos <= NAME_MAX {
      var seen := if p in m then Max(stamp, m[p].stamp) else stamp;
      SearchFindsLongest(m, p[..pos], seen, followReuse, true);
      var r := Search(m, p, stamp, followReuse, followSymlink);
      if r.Found? {
        UnderParent(r.path, p);
        forall q | MayFollow(m, p, q, followReuse, followSymlink) ensures |q| <= |r.path| {
          UnderParent(q, p);
          assert MayFollow(m, p[..pos], q, followReuse, true);
        }
      }
    }
  }

  lemma {:induction false} SearchFindsDirectory(
      m: Snapshot, p: string, stamp: int, followReuse: bool, followSymlink: bool)
    ensures
      var r := Search(m, p, stamp, followReuse, followSymlink);
      r.Found? ==> Under(r.path, p) && |r.path| <= |p| && Followed(m, r.path, followReuse, true)
  {
    SearchFindsLongest(m, p, stamp, followReuse, followSymlink);
  }

  /** Unless a name is too long, a search that finds nothing had nothing to follow. */
  lemma {:induction false} SearchComplete(m: Snapshot, p: string, stamp: int, followReuse: bool, followSymlink: bool)
    requires ShortNames(p)
    ensures Search(m, p, stamp, followReuse, followSymlink).Nothing? ==>
      forall q :: !MayFollow(m, p, q, followReuse, followSymlink)
    decreases |p|
  {
    var pos := LastSlash(p);
    if !Followed(m, p, followReuse, followSymlink) {
      if pos >= 0 {
        var seen := if p in m then Max(stamp, m[p].stamp) else stamp;
        SearchComplete(m, p[..pos], seen, followReuse, true);
      }
      forall q | Search(m, p, stamp, followReuse, followSymlink).Nothing?
        ensures !MayFollow(m, p, q, followReuse, followSymlink)
      {
        if q != p { UnderParent(q, p); }
        assert pos >= 0 ==> !MayFollow(m, p[..pos], q, followReuse, true);
      }
    }
  }

  // ---------------------------------------------------------------------------------------------
  // Resolution
  // ---------------------------------------------------------------------------------------------

  predicate IsStorageName(t: string) {
    t != "" && t[0] == '|' && '/' !in t
  }

  predicate Followable(m: Snapshot, k: string) {
    k in m && !m[k].kind.NoMapping?
  }

  /** Mapped paths do not lie in each other; a moved directory's old name is kept aside by a reuse mapping; storage
      names are mapped by symbolic links only. */
  ghost predicate WellFormed(m: Snapshot) {
    && (forall j, k :: Followable(m, j) && Followable(m, k) && Under(j, k) ==> j == k)
    && (forall k :: k in m && m[k].kind.Reuse? ==> IsStorageName(m[k].target))
    && (forall k :: k in m && m[k].kind.Move? ==>
          IsStorageName(m[k].target) || (m[k].target in m && m[m[k].target].kind.Reuse?))
    && (forall k :: Followable(m, k) && k != "" && k[0] == '|' ==> m[k].kind.Symlink?)
  }

  /** A rename mapping, rather than a link, is next. */
  predicate Remaps(m: Snapshot, p: string, followReuse: bool, followSymlink: bool) {
    var r := Search(m, p, 0, followReuse, followSymlink);
    r.Found? && r.path in m && !m[r.path].kind.Symlink?
  }

  /** The stamp does not influence which mapping is found. */
  lemma {:induction false} SearchStampFree(
      m: Snapshot, p: string, s: int, s': int, followReuse: bool, followSymlink: bool)
    ensures
      var r, r' := Search(m, p, s, followReuse, followSymlink), Search(m, p, s', followReuse, followSymlink);
      r.Found? == r'.Found? && (r.Found? ==> r.path == r'.path)
    decreases |p|
  {
    var pos := LastSlash(p);
    if !Followed(m, p, followReuse, followSymlink) && pos >= 0 {
      var seen := if p in m then Max(s, m[p].stamp) else s;
      var seen' := if p in m then Max(s', m[p].stamp) else s';
      SearchStampFree(m, p[..pos], seen, seen', followReuse, true);
    }
  }

  /** Below a storage name only links are mapped. */
  lemma {:induction false} NoRemapBelowStorage(
      m: Snapshot, t: string, p: string, followReuse: bool, followSymlink: bool)
    requires WellFormed(m) && IsStorageName(t) && Under(t, p)
    ensures !Remaps(m, p, followReuse, followSymlink)
  {
    var r := Search(m, p, 0, followReuse, followSymlink);
    SearchFindsDirectory(m, p, 0, followReuse, followSymlink);
    if r.Found? {
      StorageNameFirst(t, r.path, p);
      assert Followable(m, r.path);
    }
  }

  /** Below a name kept aside nothing is mapped but that name. */
  lemma {:induction false} NoRemapBelowKept(m: Snapshot, t: string, p: string, followSymlink: bool)
    requires WellFormed(m) && t in m && m[t].kind.Reuse? && Under(t, p)
    ensures !Remaps(m, p, false, followSymlink)
  {
    var r := Search(m, p, 0, false, followSymlink);
    SearchFindsDirectory(m, p, 0, false, followSymlink);
    if r.Found? {
      UnderLinear(t, r.path, p);
      assert Followable(m, r.path) && Followable(m, t);
      assert false;
    }
  }

  /** After a rename mapping has been applied no other one applies. */
  lemma {:induction false} RemapsOnce(m: Snapshot, p: string, q: string, followReuse: bool, followSymlink: bool)
    requires WellFormed(m) && q in m && (m[q].kind.Move? || m[q].kind.Reuse?) && Under(q, p)
    ensures !Remaps(m, m[q].target + p[|q|..], !m[q].kind.Move?, followSymlink)
  {
    UnderSplit(q, p);
    UnderJoin(m[q].target, p[|q|..]);
    if IsStorageName(m[q].target) {
      NoRemapBelowStorage(m, m[q].target, m[q].target + p[|q|..], !m[q].kind.Move?, followSymlink);
    } else {
      NoRemapBelowKept(m, m[q].target, m[q].target + p[|q|..], followSymlink);
    }
  }

  /** Every directory of a path that starts with a storage name starts with '|'. */
  lemma {:induction false} StorageNameFirst(t: string, q: string, p: string)
    requires IsStorageName(t) && Under(t, p) && Under(q, p)
    ensures q != "" && q[0] == '|'
  {
    assert p[0] == '|';
  }

  /** How a resolution ends: with the path whose metadata key is read and the permission stamp or error that goes with
      it, or not within the given number of remaps. */
  datatype Resolution = Resolved(path: string, stamp: int) | Unfinished

  /** The remapping loop of toSystemPath, cut off after a number of remaps; defined on every map. */
  function Hops(
      m: Snapshot, p: string, stamp: int, links: nat, followReuse: bool, followSymlink: bool, limit: nat): Resolution
    requires links <= MAXSYMLINKS
    decreases limit
  {
    SearchFindsDirectory(m, p, stamp, followReuse, followSymlink);
    match Search(m, p, stamp, followReuse, followSymlink)
    case Nothing(seen) => Resolved(p, seen)
    case Found(q, seen) =>
      if m[q].kind.Symlink? && links == MAXSYMLINKS then Resolved(p, ELOOP)
      else if limit == 0 then Unfinished
      else
        Hops(m, m[q].target + p[|q|..], seen, if m[q].kind.Symlink? then links + 1 else links,
          !m[q].kind.Move?, followSymlink, limit - 1)
  }

  /** A higher limit does not change a resolution that ends. */
  lemma {:induction false} HopsFurther(
      m: Snapshot, p: string, stamp: int, links: nat, followReuse: bool, followSymlink: bool, limit: nat, limit': nat)
    requires links <= MAXSYMLINKS && limit <= limit'
    requires Hops(m, p, stamp, links, followReuse, followSymlink, limit).Resolved?
    ensures
      Hops(m, p, stamp, links, followReuse, followSymlink, limit')
      == Hops(m, p, stamp, links, followReuse, followSymlink, limit)
    decreases limit
  {
    SearchFindsDirectory(m, p, stamp, followReuse, followSymlink);
    var r := Search(m, p, stamp, followReuse, followSymlink);
    if r.Found? && !(m[r.path].kind.Symlink? && links == MAXSYMLINKS) {
      HopsFurther(m, m[r.path].target + p[|r.path|..], r.stamp, if m[r.path].kind.Symlink? then links + 1 else links,
        !m[r.path].kind.Move?, followSymlink, limit - 1, limit' - 1);
    }
  }

  /** What is left of a resolution when rename mappings apply only once between two links. */
  ghost function HopsLeft(m: Snapshot, p: string, links: nat, followReuse: bool, followSymlink: bool): nat
    requires links <= MAXSYMLINKS
  {
    2 * (MAXSYMLINKS - links) + if Remaps(m, p, followReuse, followSymlink) then 1 else 0
  }

  /** Resolution ends after fewer than 2 * (MAXSYMLINKS + 1) remaps, whatever cycles the links form. */
  lemma {:induction false} ResolutionBounded(
      m: Snapshot, p: string, stamp: int, links: nat, followReuse: bool, followSymlink: bool, limit: nat)
    requires WellFormed(m) && links <= MAXSYMLINKS && limit >= HopsLeft(m, p, links, followReuse, followSymlink)
    ensures Hops(m, p, stamp, links, followReuse, followSymlink, limit).Resolved?
    decreases limit
  {
    SearchFindsDirectory(m, p, stamp, followReuse, followSymlink);
    SearchStampFree(m, p, stamp, 0, followReuse, followSymlink);
    var r := Search(m, p, stamp, followReuse, followSymlink);
    if r.Found? {
      var q := r.path;
      var next := m[q].target + p[|q|..];
      if !m[q].kind.Symlink? {
        RemapsOnce(m, p, q, followReuse, followSymlink);
        ResolutionBounded(m, next, r.stamp, links, !m[q].kind.Move?, followSymlink, limit - 1);
      } else if links < MAXSYMLINKS {
        ResolutionBounded(m, next, r.stamp, links + 1, true, followSymlink, limit - 1);
      }
    }
  }

  const HOP_LIMIT := 2 * MAXSYMLINKS + 1

  /** toSystemPath; lookup says that a link at the very end of the path is not followed. */
  function ToSystemPath(m: Snapshot, userPath: string, lookup: bool, limit: nat): Resolution
    requires |userPath| < PathCodec.NPOS
  {
    var p := PathCodec.Decode(userPath);
    if |p| > PATH_MAX then Resolved(p, ENAMETOOLONG) else Hops(m, p, 0, 0, true, !lookup, limit)
  }

  // ---------------------------------------------------------------------------------------------
  // The log
  // ---------------------------------------------------------------------------------------------

  datatype RawEntry =
    | DbMove(origin: string, target: string)
    | DbSymlink(origin: string, target: string)
    | DbNone(origin: string)
    | DbRemoved(origin: string)

  function ReuseName(version: nat): (s: string)
    ensures IsStorageName(s)
  {
    var digits := Decimal.ToString(version);
    assert forall i :: 0 <= i < |digits| ==> digits[i] in Decimal.DIGITS;
    "|reuse_" + digits
  }

  lemma {:induction false} ReuseNameInjective(a: nat, b: nat)
    requires ReuseName(a) == ReuseName(b)
    ensures a == b
  {
    assert Decimal.ToString(a) == ReuseName(a)[7..] == ReuseName(b)[7..] == Decimal.ToString(b);
    Decimal.ToStringInjective(a, b);
  }

  function AddDirectoryMove(m: Snapshot, version: nat, origin: string, destination: string): Snapshot
    requires origin != destination
  {
    var m1 :=
      if origin !in m then
        m[destination := Mapping(Move, origin, 0)][origin := Mapping(Reuse, ReuseName(version), 0)]
      else
        var moved := m[destination := Mapping(Move, m[origin].target, m[origin].stamp)];
        if m[origin].kind.Reuse? then moved[origin := m[origin].(target := ReuseName(version))]
        else moved - {origin};
    if m1[destination].target == destination then m1 - {destination, origin} else m1
  }

  function AddSoftLink(m: Snapshot, origin: string, destination: string): Snapshot {
    m[(if origin in m then m[origin].target else origin) := Mapping(Symlink, destination, 0)]
  }

  function AddPermissionChange(m: Snapshot, version: nat, path: string): Snapshot {
    m[path := if path in m then m[path].(stamp := version) else Mapping(NoMapping, "", version)]
  }

  function AddUnlink(m: Snapshot, path: string): Snapshot {
    m - {path}
  }

  /** Entries a client may log: strings of machine size, and no move onto itself. */
  predicate ValidEntry(e: RawEntry) {
    && |e.origin| < PathCodec.NPOS
    && (e.DbMove? || e.DbSymlink? ==> |e.target| < PathCodec.NPOS)
    && (e.DbMove? ==> PathCodec.Decode(e.origin) != PathCodec.Decode(e.target))
  }

  type DbEntry = e: RawEntry | ValidEntry(e) witness DbNone("")

  /** The map after the entry with the given database version. */
  function Apply(m: Snapshot, version: nat, e: DbEntry): Snapshot {
    var origin := PathCodec.Decode(e.origin);
    match e
    case DbMove(_, t) => AddDirectoryMove(m, version, origin, PathCodec.Decode(t))
    case DbSymlink(_, t) => AddSoftLink(m, origin, PathCodec.Decode(t))
    case DbNone(_) => AddPermissionChange(m, version, origin)
    case DbRemoved(_) => AddUnlink(m, origin)
  }

  ghost predicate Implements(apply: (Snapshot, nat, DbEntry) -> Snapshot) {
    forall m: Snapshot, v: nat, e: DbEntry {:trigger Apply(m, v, e)} :: apply(m, v, e) == Apply(m, v, e)
  }

  lemma {:induction false} ImplementsAt(apply: (Snapshot, nat, DbEntry) -> Snapshot, m: Snapshot, v: nat, e: DbEntry)
    requires Implements(apply)
    ensures apply(m, v, e) == Apply(m, v, e)
  {}

  /** A serialized map lists every mapping, in the unspecified order of the hash table. */
  ghost predicate Enumerates(items: seq<(string, Mapping)>, m: Snapshot) {
    && (forall i :: 0 <= i < |items| ==> items[i].0 in m && m[items[i].0] == items[i].1)
    && (forall k :: k in m ==> exists i :: 0 <= i < |items| && items[i].0 == k)
  }

  function Loaded(items: seq<(string, Mapping)>): Snapshot
    decreases |items|
  {
    if items == [] then map[] else
    var last := |items| - 1;
    Loaded(items[..last])[items[last].0 := items[last].1]
  }

  lemma {:induction false} LoadedEntries(items: seq<(string, Mapping)>, m: Snapshot)
    requires forall i :: 0 <= i < |items| ==> items[i].0 in m && m[items[i].0] == items[i].1
    ensures forall k :: k in Loaded(items) ==> k in m && m[k] == Loaded(items)[k]
    ensures forall i :: 0 <= i < |items| ==> items[i].0 in Loaded(items)
    decreases |items|
  {
    if items != [] {
      var last := |items| - 1;
      LoadedEntries(items[..last], m);
      forall i | 0 <= i < |items| ensures items[i].0 in Loaded(items) {
        if i < last { assert items[..last][i] == items[i]; }
      }
    }
  }

  /** Whatever the order in which a map is written out, loading it gives the map back. */
  lemma {:induction false} LoadInvertsSerialize(items: seq<(string, Mapping)>, m: Snapshot)
    requires Enumerates(items, m)
    ensures Loaded(items) == m
  {
    LoadedEntries(items, m);
  }

  class PathMapDB {
    var snapshot: Snapshot
    var snapshotVersion: nat

    constructor ()
      ensures snapshot == map[] && snapshotVersion == 0
    {
      snapshot := map[];
      snapshotVersion := 0;
    }

    /** The loop ends if the resolution does; limit is any bound on its remaps. */
    method ToSystemPathOf(userPath: string, lookup: bool, ghost limit: nat) returns (systemPath: string, stamp: int)
      requires |userPath| < PathCodec.NPOS && ToSystemPath(snapshot, userPath, lookup, limit).Resolved?
      ensures Resolved(systemPath, stamp) == ToSystemPath(snapshot, userPath, lookup, limit)
    {
      var links := 0;
      var followReuse := true;
      var followSymlink := !lookup;
      ghost var left := limit;
      stamp := 0;
      systemPath := PathCodec.IoIntercept(userPath);
      if |systemPath| > PATH_MAX { return systemPath, ENAMETOOLONG; }
      var found := Search(snapshot, systemPath, stamp, followReuse, followSymlink);
      while found.Found?
        invariant 0 <= links <= MAXSYMLINKS
        invariant found == Search(snapshot, systemPath, stamp, followReuse, followSymlink)
        invariant ToSystemPath(snapshot, userPath, lookup, limit)
          == Hops(snapshot, systemPath, stamp, links, followReuse, followSymlink, left)
        decreases left
      {
        var q := found.path;
        SearchFindsDirectory(snapshot, systemPath, stamp, followReuse, followSymlink);
        if snapshot[q].kind.Symlink? {
          links := links + 1;
          if links > MAXSYMLINKS { return systemPath, ELOOP; }
        }
        followReuse := !snapshot[q].kind.Move?;
        stamp := found.stamp;
        systemPath := snapshot[q].target + systemPath[|q|..];
        left := left - 1;
        found := Search(snapshot, systemPath, stamp, followReuse, followSymlink);
      }
      stamp := found.stamp;
    }

    /** Applies one entry; the version it is logged under counts up by one. */
    method AddEntry(e: DbEntry)
      modifies this
      ensures snapshotVersion == old(snapshotVersion) + 1
      ensures snapshot == Apply(old(snapshot), old(snapshotVersion) + 1, e)
    {
      snapshotVersion := snapshotVersion + 1;
      var origin := PathCodec.IoIntercept(e.origin);
      match e
      case DbMove(_, t) =>
        var destination := PathCodec.IoIntercept(t);
        MoveDirectory(origin, destination);
      case DbSymlink(_, t) =>
        var destination := PathCodec.IoIntercept(t);
        snapshot := snapshot[(if origin in snapshot then snapshot[origin].target else origin) :=
          Mapping(Symlink, destination, 0)];
      case DbNone(_) =>
        snapshot := snapshot[origin := if origin in snapshot
          then Mapping(snapshot[origin].kind, snapshot[origin].target, snapshotVersion)
          else Mapping(NoMapping, "", snapshotVersion)];
      case DbRemoved(_) =>
        snapshot := snapshot - {origin};
    }

    method MoveDirectory(origin: string, destination: string)
      requires origin != destination
      modifies `snapshot
      ensures snapshot == AddDirectoryMove(old(snapshot), snapshotVersion, origin, destination)
    {
      if origin !in snapshot {
        snapshot := snapshot[destination := Mapping(Move, origin, 0)];
        snapshot := snapshot[origin := Mapping(Reuse, ReuseName(snapshotVersion), 0)];
      } else {
        var kind := snapshot[origin].kind;
        snapshot := snapshot[destination := Mapping(Move, snapshot[origin].target, snapshot[origin].stamp)];
        if kind.Reuse? {
          snapshot := snapshot[origin := snapshot[origin].(target := ReuseName(snapshotVersion))];
        } else {
          snapshot := snapshot - {origin};
        }
      }
      if destination == snapshot[destination].target {
        snapshot := snapshot - {destination};
        snapshot := snapshot - {origin};
        assert old(snapshot) - {destination, origin} == snapshot;
      }
    }

    /** Continues the replay of a log. */
    method AddNext(
        e: DbEntry, ghost apply: (Snapshot, nat, DbEntry) -> Snapshot, ghost start: Snapshot, ghost version: nat,
        ghost done: seq<DbEntry>)
      requires Implements(apply)
      requires snapshot == Replay(apply, start, version, done) && snapshotVersion == version + |done|
      modifies this
      ensures snapshot == Replay(apply, start, version, done + [e]) && snapshotVersion == version + |done| + 1
    {
      ghost var before := snapshot;
      AddEntry(e);
      ImplementsAt(apply, before, version + |done| + 1, e);
      ReplayOne(apply, start, version, done, e);
    }

    method AddAll(entries: seq<DbEntry>, ghost apply: (Snapshot, nat, DbEntry) -> Snapshot)
      requires Implements(apply)
      modifies this
      ensures snapshotVersion == old(snapshotVersion) + |entries|
      ensures snapshot == Replay(apply, old(snapshot), old(snapshotVersion), entries)
    {
      ghost var start, version := snapshot, snapshotVersion;
      for i := 0 to |entries|
        invariant snapshotVersion == version + i
        invariant snapshot == Replay(apply, start, version, entries[..i])
      {
        AddNext(entries[i], apply, start, version, entries[..i]);
        assert entries[..i + 1] == entries[..i] + [entries[i]];
      }
      assert entries[..|entries|] == entries;
    }

    /** Brings the map from fromVersion to toVersion. */
    method UpdateSnapshot(entries: seq<DbEntry>, fromVersion: nat, toVersion: nat)
      requires |entries| == toVersion - fromVersion && fromVersion <= snapshotVersion
      modifies this
      ensures toVersion <= old(snapshotVersion) ==> unchanged(this)
      ensures toVersion > old(snapshotVersion) ==>
        snapshotVersion == toVersion && snapshot == Replay(Apply, old(snapshot), old(snapshotVersion), entries)
    {
      if toVersion <= snapshotVersion { return; }
      AddAll(entries, Apply);
      snapshotVersion := toVersion;
    }

    method SerializeSnapshot() returns (items: seq<(string, Mapping)>, version: nat)
      ensures Enumerates(items, snapshot) && Loaded(items) == snapshot && version == snapshotVersion
    {
      items := [];
      var rest := snapshot.Keys;
      while rest != {}
        invariant rest <= snapshot.Keys
        invariant forall i :: 0 <= i < |items| ==> items[i].0 in snapshot && snapshot[items[i].0] == items[i].1
        invariant forall k :: k in snapshot && k !in rest ==> exists i :: 0 <= i < |items| && items[i].0 == k
        decreases |rest|
      {
        var k :| k in rest;
        ghost var before := items;
        items := items + [(k, snapshot[k])];
        assert items[|before|].0 == k;
        assert forall i :: 0 <= i < |before| ==> items[i] == before[i];
        rest := rest - {k};
      }
      LoadInvertsSerialize(items, snapshot);
      version := snapshotVersion;
    }

    method LoadSnapshot(items: seq<(string, Mapping)>, version: nat)
      modifies this
      ensures version <= old(snapshotVersion) ==> unchanged(this)
      ensures version > old(snapshotVersion) ==> snapshotVersion == version && snapshot == Loaded(items)
    {
      if version <= snapshotVersion { return; }
      snapshotVersion := version;
      snapshot := map[];
      for i := 0 to |items|
        invariant snapshotVersion == version && snapshot == Loaded(items[..i])
      {
        snapshot := snapshot[items[i].0 := items[i].1];
        assert items[..i + 1][..i] == items[..i];
      }
      assert items[..|items|] == items;
    }
  }
}
