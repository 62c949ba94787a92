/** The timestamps that path permissions are checked against are those the path map finds on its way up a path. */
module PathStamps {
  import opened Prelude
  import PathMap
  import PathCodec
  import opened PathPermissions

  predicate Name(n: string) {
    0 < |n| <= PathMap.NAME_MAX && forall i :: 0 <= i < |n| ==> n[i] != '/'
  }

  predicate Names(p: Path) {
    forall i :: 0 <= i < |p| ==> Name(p[i])
  }

  /** Components with a slash before each. */
  function Joined(p: Path): string {
    if p == [] then "" else Joined(Parent(p)) + "/" + p[|p| - 1]
  }

  function UserPath(p: Path): string {
    if p == [] then "/" else Joined(p)
  }

  lemma {:induction false} JoinedSplits(p: Path)
    requires Names(p) && p != []
    ensures PathMap.LastSlash(Joined(p)) == |Joined(Parent(p))|
    ensures Joined(p)[..|Joined(Parent(p))|] == Joined(Parent(p))
    ensures Joined(p)[|Joined(Parent(p))| + 1..] == p[|p| - 1]
  {
    var n, d := p[|p| - 1], Joined(Parent(p));
    var s := Joined(p);
    assert s[|d|] == '/';
    forall i | |d| < i < |s| ensures s[i] != '/' {
      assert s[i] == n[i - |d| - 1];
    }
  }

  lemma {:induction false} SameEnd(p: Path, q: Path)
    requires p != [] && q != [] && Parent(p) == Parent(q) && p[|p| - 1] == q[|q| - 1]
    ensures p == q
  {
    assert p == Parent(p) + [p[|p| - 1]] && q == Parent(q) + [q[|q| - 1]];
  }

  lemma {:induction false} JoinedInjective(p: Path, q: Path)
    requires Names(p) && Names(q) && p != [] && q != [] && Joined(p) == Joined(q)
    ensures p == q
    decreases |p|
  {
    JoinedSplits(p);
    JoinedSplits(q);
    var d, d' := Parent(p), Parent(q);
    assert Joined(d) == Joined(d');
    if d != [] && d' != [] {
      JoinedInjective(d, d');
    } else {
      assert |Joined(d)| == 0;
    }
    SameEnd(p, q);
  }

  lemma {:induction false} UserPathInjective(p: Path, q: Path)
    requires Names(p) && Names(q) && UserPath(p) == UserPath(q)
    ensures p == q
  {
    if p != [] && q != [] {
      JoinedInjective(p, q);
    } else {
      if p != [] { JoinedSplits(p); }
      if q != [] { JoinedSplits(q); }
    }
  }

  /** The map holds these timestamps and nothing else. */
  ghost predicate Records(m: PathMap.Snapshot, stamps: map<Path, nat>) {
    && "" !in m
    && (forall s :: s in m ==> m[s].kind.NoMapping?)
    && (forall p :: Names(p) ==> (p in stamps <==> UserPath(p) in m))
    && (forall p :: Names(p) && p in stamps ==> m[UserPath(p)].stamp == stamps[p])
  }

  /** Searching a path finds the newest timestamp on it. */
  lemma {:induction false} SearchFindsRequired(
      m: PathMap.Snapshot, stamps: map<Path, nat>, p: Path, stamp: nat, followSymlink: bool)
    requires Records(m, stamps) && Names(p) && p != []
    ensures PathMap.Search(m, UserPath(p), stamp, true, followSymlink)
      == PathMap.Nothing(Max(stamp, Required(stamps, p)))
    decreases |p|
  {
    JoinedSplits(p);
    var seen := Max(stamp, Stamp(stamps, p));
    var d := Parent(p);
    assert PathMap.Search(m, UserPath(p), stamp, true, followSymlink) == PathMap.Search(m, Joined(d), seen, true, true);
    if d != [] {
      SearchFindsRequired(m, stamps, d, seen, true);
    }
  }

  lemma {:induction false} RootStamp(m: PathMap.Snapshot, stamps: map<Path, nat>, followSymlink: bool)
    requires Records(m, stamps)
    ensures PathMap.Search(m, "/", 0, true, followSymlink) == PathMap.Nothing(Required(stamps, []))
  {
    assert Names([]) && UserPath([]) == "/";
    assert "/"[..0] == "";
  }

  /** The timestamp lookup gets for a path, root included, is the one its permissions have to be as new as. */
  lemma {:induction false} SystemPathStamp(
      m: PathMap.Snapshot, stamps: map<Path, nat>, userPath: string, p: Path, lookup: bool, limit: nat)
    requires Records(m, stamps) && Names(p) && |userPath| < PathCodec.NPOS && PathCodec.Decode(userPath) == UserPath(p)
    ensures
      PathMap.ToSystemPath(m, userPath, lookup, limit) ==
      PathMap.Resolved(
        UserPath(p), if |UserPath(p)| > PathMap.PATH_MAX then PathMap.ENAMETOOLONG else Required(stamps, p))
  {
    if p == [] { RootStamp(m, stamps, !lookup); } else { SearchFindsRequired(m, stamps, p, 0, !lookup); }
  }

  /** A logged permission change and a logged removal keep map and timestamps in step. */
  lemma {:induction false} ChangesAreRecorded(m: PathMap.Snapshot, stamps: map<Path, nat>, version: nat, p: Path)
    requires Records(m, stamps) && Names(p)
    ensures Records(PathMap.AddPermissionChange(m, version, UserPath(p)), stamps[p := version])
    ensures Records(PathMap.AddUnlink(m, UserPath(p)), stamps - {p})
  {
    if p != [] { JoinedSplits(p); }
    forall q | Names(q) && UserPath(q) == UserPath(p) ensures q == p {
      UserPathInjective(q, p);
    }
  }
}
