/** Histories that also create symbolic links: the map stays in the form that resolution needs, so every lookup ends,
  however many links there are and whatever cycles they form.
 */
module PathLinks {
  import opened PathMap
  import opened PathRename
  import PathCodec
  import opened LogReplay

  /** The name a new link is recorded under: a reused name's storage, or the name itself. */
  function LinkKey(m: Snapshot, origin: string): string {
    if origin in m then m[origin].target else origin
  }

  /** A link takes an unmapped or reused name, apart from everything mapped. */
  ghost predicate MayLink(m: Snapshot, origin: string) {
    && (origin in m ==> m[origin].kind.Reuse?)
    && (forall k :: Followable(m, k) && k != LinkKey(m, origin) ==> Apart(LinkKey(m, origin), k))
  }

  lemma {:induction false} LinkKeepsWellFormed(m: Snapshot, origin: string, destination: string)
    requires WellFormed(m) && MayLink(m, origin)
    ensures WellFormed(AddSoftLink(m, origin, destination))
  {
    var key := LinkKey(m, origin);
    var m' := AddSoftLink(m, origin, destination);
    assert forall k :: k != key ==> (Followable(m', k) <==> Followable(m, k));
    forall k | k in m' && m'[k].kind.Move? && !IsStorageName(m'[k].target)
      ensures m'[k].target in m' && m'[m'[k].target].kind.Reuse?
    {
      assert m[k].kind.Move? && Followable(m, m[k].target);
    }
  }

  /** The mapping at the only mapped directory of a path is found. */
  lemma {:induction false} OnlyMapped(
      m: Snapshot, k: string, x: string, stamp: int, followReuse: bool, followSymlink: bool)
    requires WellFormed(m) && Suffix(x) && ShortNames(k + x) && Followable(m, k)
    requires MayFollow(m, k + x, k, followReuse, followSymlink)
    ensures
      var r := Search(m, k + x, stamp, followReuse, followSymlink);
      r.Found? && r.path == k
  {
    SearchComplete(m, k + x, stamp, followReuse, followSymlink);
    SearchFindsDirectory(m, k + x, stamp, followReuse, followSymlink);
    var r := Search(m, k + x, stamp, followReuse, followSymlink);
    UnderLinear(k, r.path, k + x);
    assert Followable(m, r.path);
  }

  /** A path through a new link, or that ends at it and follows it, goes on with the link's destination in its place,
    and counts as one link. */
  lemma {:induction false} LinkLeads(m: Snapshot, version: nat, e: DbEntry, x: string, stamp: int,
      links: nat, followReuse: bool, followSymlink: bool, limit: nat)
    requires WellFormed(m) && e.DbSymlink? && MayLink(m, PathCodec.Decode(e.origin)) && links < MAXSYMLINKS
    requires Suffix(x) && ShortNames(LinkKey(m, PathCodec.Decode(e.origin)) + x) && (x != "" || followSymlink)
    ensures
      var m', key := Apply(m, version, e), LinkKey(m, PathCodec.Decode(e.origin));
      var seen := Search(m', key + x, stamp, followReuse, followSymlink).stamp;
      Hops(m', key + x, stamp, links, followReuse, followSymlink, limit + 1)
      == Hops(m', PathCodec.Decode(e.target) + x, seen, links + 1, true, followSymlink, limit)
  {
    var origin, destination := PathCodec.Decode(e.origin), PathCodec.Decode(e.target);
    var m', key := AddSoftLink(m, origin, destination), LinkKey(m, origin);
    LinkKeepsWellFormed(m, origin, destination);
    UnderJoin(key, x);
    OnlyMapped(m', key, x, stamp, followReuse, followSymlink);
  }

  /** A path through a link at a reused name reaches the link by way of the name's storage. */
  lemma {:induction false} ReusedLinkLeads(
      m: Snapshot, version: nat, e: DbEntry, x: string, stamp: int, links: nat, followSymlink: bool, limit: nat)
    requires WellFormed(m) && e.DbSymlink? && MayLink(m, PathCodec.Decode(e.origin)) && links < MAXSYMLINKS
    requires
      var origin := PathCodec.Decode(e.origin);
      && origin in m && LinkKey(m, origin) != origin && Suffix(x) && (x != "" || followSymlink)
      && ShortNames(origin + x) && ShortNames(LinkKey(m, origin) + x)
    ensures
      var m', origin := Apply(m, version, e), PathCodec.Decode(e.origin);
      var first := Search(m', origin + x, stamp, true, followSymlink).stamp;
      var seen := Search(m', LinkKey(m, origin) + x, first, true, followSymlink).stamp;
      Hops(m', origin + x, stamp, links, true, followSymlink, limit + 2)
      == Hops(m', PathCodec.Decode(e.target) + x, seen, links + 1, true, followSymlink, limit)
  {
    var origin, destination := PathCodec.Decode(e.origin), PathCodec.Decode(e.target);
    var m' := AddSoftLink(m, origin, destination);
    LinkKeepsWellFormed(m, origin, destination);
    UnderJoin(origin, x);
    OnlyMapped(m', origin, x, stamp, true, followSymlink);
    LinkLeads(m, version, e, x, Search(m', origin + x, stamp, true, followSymlink).stamp, links, true, followSymlink,
      limit);
  }

  /** Looking the link itself up ends at its own key. */
  lemma {:induction false} LinkIsLookedUp(m: Snapshot, version: nat, e: DbEntry, stamp: int, limit: nat)
    requires WellFormed(m) && e.DbSymlink? && MayLink(m, PathCodec.Decode(e.origin))
    requires ShortNames(LinkKey(m, PathCodec.Decode(e.origin)))
    ensures
      var key := LinkKey(m, PathCodec.Decode(e.origin));
      var r := Hops(Apply(m, version, e), key, stamp, 0, true, false, limit);
      r.Resolved? && r.path == key
  {
    var origin, destination := PathCodec.Decode(e.origin), PathCodec.Decode(e.target);
    var m', key := AddSoftLink(m, origin, destination), LinkKey(m, origin);
    LinkKeepsWellFormed(m, origin, destination);
    SearchFindsLongest(m', key, stamp, true, false);
    var r := Search(m', key, stamp, true, false);
    if r.Found? {
      assert Followable(m', r.path) && Followable(m', key);
    }
  }

  lemma {:induction false} MoveKeepsWellFormed(m: Snapshot, version: nat, a: string, b: string)
    requires WellFormed(m) && MayMove(m, a, b) && (a in m ==> !m[a].kind.Symlink?)
    ensures WellFormed(AddDirectoryMove(m, version, a, b))
  {
    var m' := AddDirectoryMove(m, version, a, b);
    assert forall k :: k != a && k != b ==> (k in m' <==> k in m) && (k in m ==> m'[k] == m[k]);
    assert a in m' ==> m'[a].kind.Reuse? && m'[a].target == ReuseName(version);
    assert b in m' ==> m'[b].kind.Move? && m'[b].target == Source(m, a);
    forall j, k | Followable(m', j) && Followable(m', k) && Under(j, k) ensures j == k {
      assert j == a || j == b || Followable(m, j);
      assert k == a || k == b || Followable(m, k);
    }
    forall k | k in m' && m'[k].kind.Move? && !IsStorageName(m'[k].target)
      ensures m'[k].target in m' && m'[m'[k].target].kind.Reuse?
    {
      MoveTargetKept(m, version, a, b, k);
    }
  }

  /** After a rename every rename mapping still leads to a storage name or to a name kept aside. */
  lemma {:induction false} MoveTargetKept(m: Snapshot, version: nat, a: string, b: string, k: string)
    requires WellFormed(m) && MayMove(m, a, b) && (a in m ==> !m[a].kind.Symlink?)
    requires
      var m' := AddDirectoryMove(m, version, a, b);
      k in m' && m'[k].kind.Move? && !IsStorageName(m'[k].target)
    ensures
      var m' := AddDirectoryMove(m, version, a, b);
      m'[k].target in m' && m'[m'[k].target].kind.Reuse?
  {
    var m' := AddDirectoryMove(m, version, a, b);
    var t := m'[k].target;
    if k == b {
      assert t == Source(m, a) && t != b;
    } else {
      assert k in m && m[k] == m'[k];
    }
  }

  ghost predicate AllowedWithLinks(m: Snapshot, e: DbEntry) {
    var origin := PathCodec.Decode(e.origin);
    match e
    case DbMove(_, t) => MayMove(m, origin, PathCodec.Decode(t)) && (origin in m ==> !m[origin].kind.Symlink?)
    case DbSymlink(_, _) => MayLink(m, origin)
    case DbNone(_) => true
    case DbRemoved(_) => MayRemove(m, origin)
  }

  lemma {:induction false} EntryKeepsWellFormed(m: Snapshot, version: nat, e: DbEntry)
    requires WellFormed(m) && AllowedWithLinks(m, e)
    ensures WellFormed(Apply(m, version, e))
  {
    var origin := PathCodec.Decode(e.origin);
    match e
    case DbMove(_, t) => MoveKeepsWellFormed(m, version, origin, PathCodec.Decode(t));
    case DbSymlink(_, t) => LinkKeepsWellFormed(m, origin, PathCodec.Decode(t));
    case DbNone(_) => PermissionChangeKeepsWellFormed(m, version, origin);
    case DbRemoved(_) => RemovalKeepsWellFormed(m, origin);
  }

  lemma {:induction false} PermissionChangeKeepsWellFormed(m: Snapshot, version: nat, path: string)
    requires WellFormed(m)
    ensures WellFormed(AddPermissionChange(m, version, path))
  {
    var m' := AddPermissionChange(m, version, path);
    assert forall k :: Followable(m', k) <==> Followable(m, k);
    assert forall k :: Followable(m, k) ==> m'[k].kind == m[k].kind && m'[k].target == m[k].target;
    forall k | k in m' && m'[k].kind.Move? && !IsStorageName(m'[k].target)
      ensures m'[k].target in m' && m'[m'[k].target].kind.Reuse?
    {
      assert Followable(m, k) && Followable(m, m[k].target);
    }
  }

  lemma {:induction false} RemovalKeepsWellFormed(m: Snapshot, path: string)
    requires WellFormed(m) && MayRemove(m, path)
    ensures WellFormed(AddUnlink(m, path))
  {
    var m' := AddUnlink(m, path);
    assert forall k :: Followable(m', k) ==> Followable(m, k);
  }

  lemma {:induction false} HistoryKeepsWellFormed(log: seq<DbEntry>)
    requires Admissible(Apply, (m, e) => AllowedWithLinks(m, e), map[], 0, log)
    ensures WellFormed(MapOf(log))
    decreases |log|
  {
    if log != [] {
      var init, last := log[..|log| - 1], log[|log| - 1];
      HistoryKeepsWellFormed(init);
      EntryKeepsWellFormed(MapOf(init), |log|, last);
      assert MapOf(log) == Apply(MapOf(init), 0 + |log|, last);
    }
  }

  /** After any admissible history, links included, every resolution ends within HOP_LIMIT remaps. */
  lemma {:induction false} ResolutionEnds(log: seq<DbEntry>, p: string, followSymlink: bool)
    requires Admissible(Apply, (m, e) => AllowedWithLinks(m, e), map[], 0, log)
    ensures WellFormed(MapOf(log))
    ensures Hops(MapOf(log), p, 0, 0, true, followSymlink, HOP_LIMIT).Resolved?
  {
    HistoryKeepsWellFormed(log);
    ResolutionBounded(MapOf(log), p, 0, 0, true, followSymlink, HOP_LIMIT);
  }
}
