/** Directory renames through the path map.

  For histories of renames, removals and permission changes, the map behaves as a rename of whole directories
  should: user paths keep separate storage, a renamed directory takes its content along, and the old name starts
  out empty.
 */
module PathRename {
  import opened PathMap
  import PathCodec
  import opened LogReplay

  /** The storage key of a user path. */
  function Storage(m: Snapshot, p: string): string
    requires WellFormed(m)
  {
    ResolutionBounded(m, p, 0, 0, true, false, HOP_LIMIT);
    Hops(m, p, 0, 0, true, false, HOP_LIMIT).path
  }

  predicate UserPath(p: string) {
    p != "" && p[0] == '/' && ShortNames(p)
  }

  /** Renames, reuses and permission stamps only. Every reuse mapping has a storage name of its own, and a rename
      leads to a storage name or to the path whose old name a reuse mapping keeps aside. */
  ghost predicate Renames(m: Snapshot, version: nat) {
    NamesApart(m) && TargetsIssued(m, version) && TargetsDistinct(m)
  }

  ghost predicate NamesApart(m: Snapshot) {
    && (forall k :: k in m ==> !m[k].kind.Symlink?)
    && (forall k :: Followable(m, k) ==> k != "" && k[0] == '/')
    && (forall j, k :: Followable(m, j) && Followable(m, k) && Under(j, k) ==> j == k)
  }

  ghost predicate TargetsIssued(m: Snapshot, version: nat) {
    && (forall k :: k in m && m[k].kind.Reuse? ==> Issued(m[k].target, version))
    && (forall k :: k in m && m[k].kind.Move? ==> Issued(m[k].target, version) || KeptAside(m, m[k].target))
  }

  ghost predicate TargetsDistinct(m: Snapshot) {
    forall j, k :: Followable(m, j) && Followable(m, k) && m[j].target == m[k].target ==> j == k
  }

  ghost predicate Issued(t: string, version: nat) {
    exists n: nat :: n <= version && t == ReuseName(n)
  }

  predicate KeptAside(m: Snapshot, t: string) {
    t in m && m[t].kind.Reuse?
  }

  lemma {:induction false} RenamesWellFormed(m: Snapshot, version: nat)
    requires Renames(m, version)
    ensures WellFormed(m)
  {
  }

  ghost predicate Mapped(m: Snapshot, p: string) {
    exists k :: Followable(m, k) && Under(k, p)
  }

  /** The storage of a path is its mapped directory's target followed by the rest, or the path itself. */
  lemma {:induction false} StorageForm(m: Snapshot, version: nat, p: string)
    requires Renames(m, version) && UserPath(p)
    ensures WellFormed(m)
    ensures forall k :: Followable(m, k) && Under(k, p) ==> Storage(m, p) == m[k].target + p[|k|..]
    ensures !Mapped(m, p) ==> Storage(m, p) == p
  {
    RenamesWellFormed(m, version);
    var r := Search(m, p, 0, true, false);
    SearchFindsDirectory(m, p, 0, true, false);
    SearchComplete(m, p, 0, true, false);
    if r.Found? {
      forall k | Followable(m, k) && Under(k, p) ensures k == r.path {
        UnderLinear(k, r.path, p);
      }
      RemapsOnce(m, p, r.path, true, false);
      NoSecondHop(m, m[r.path].target + p[|r.path|..], r.stamp, !m[r.path].kind.Move?, HOP_LIMIT - 1);
    } else {
      forall k ensures !(Followable(m, k) && Under(k, p)) {
        assert !MayFollow(m, p, k, true, false);
      }
    }
  }

  /** Without links, a path that no rename applies to is final. */
  lemma {:induction false} NoSecondHop(m: Snapshot, p: string, stamp: int, followReuse: bool, limit: nat)
    requires !Remaps(m, p, followReuse, false) && forall k :: k in m ==> !m[k].kind.Symlink?
    ensures Hops(m, p, stamp, 0, followReuse, false, limit).Resolved?
    ensures Hops(m, p, stamp, 0, followReuse, false, limit).path == p
  {
    SearchStampFree(m, p, stamp, 0, followReuse, false);
    SearchFindsDirectory(m, p, stamp, followReuse, false);
  }

  // ---------------------------------------------------------------------------------------------
  // Separate storage
  // ---------------------------------------------------------------------------------------------

  /** Two suffixes behind the same text, where neither head contains a slash. */
  lemma {:induction false} SameHead(s: string, x: string, t: string, y: string)
    requires s + x == t + y && Suffix(x) && Suffix(y) && '/' !in s && '/' !in t
    ensures s == t && x == y
  {
    var p := s + x;
    assert s == p[..|s|] && t == p[..|t|];
    assert x == p[|s|..] && y == p[|t|..];
  }

  lemma {:induction false} TargetShape(m: Snapshot, version: nat, k: string)
    requires Renames(m, version) && Followable(m, k)
    ensures m[k].target != ""
    ensures if IsStorageName(m[k].target) then m[k].target[0] == '|'
      else Followable(m, m[k].target) && m[k].target[0] == '/'
  {
    assert m[k].kind.Reuse? || m[k].kind.Move?;
    assert KeptAside(m, m[k].target) ==> Followable(m, m[k].target);
  }

  /** Targets of different mapped directories never yield the same key. */
  lemma {:induction false} TargetsApart(m: Snapshot, version: nat, j: string, x: string, k: string, y: string)
    requires Renames(m, version) && Followable(m, j) && Followable(m, k) && Suffix(x) && Suffix(y)
    requires m[j].target + x == m[k].target + y
    ensures j == k && x == y
  {
    var s, t := m[j].target, m[k].target;
    var p := s + x;
    UnderJoin(s, x);
    UnderJoin(t, y);
    TargetShape(m, version, j);
    TargetShape(m, version, k);
    assert p[0] == s[0] == t[0];
    if IsStorageName(s) && IsStorageName(t) {
      SameHead(s, x, t, y);
    } else if !IsStorageName(s) && !IsStorageName(t) {
      UnderLinear(s, t, p);
      assert x == p[|s|..] == y;
    }
  }

  /** No two user paths share storage. */
  lemma {:induction false} StorageInjective(m: Snapshot, version: nat, p: string, q: string)
    requires Renames(m, version) && UserPath(p) && UserPath(q)
    requires WellFormed(m) && Storage(m, p) == Storage(m, q)
    ensures p == q
  {
    StorageForm(m, version, p);
    StorageForm(m, version, q);
    if Mapped(m, p) && Mapped(m, q) {
      var j :| Followable(m, j) && Under(j, p);
      var k :| Followable(m, k) && Under(k, q);
      UnderSplit(j, p);
      UnderSplit(k, q);
      TargetsApart(m, version, j, p[|j|..], k, q[|k|..]);
    } else if Mapped(m, p) {
      StorageNotUnmapped(m, version, p, q);
    } else if Mapped(m, q) {
      StorageNotUnmapped(m, version, q, p);
    }
  }

  /** The storage of a mapped path is not an unmapped user path. */
  lemma {:induction false} StorageNotUnmapped(m: Snapshot, version: nat, p: string, q: string)
    requires Renames(m, version) && UserPath(p) && UserPath(q) && Mapped(m, p) && !Mapped(m, q)
    ensures WellFormed(m) && Storage(m, p) != q
  {
    StorageForm(m, version, p);
    var k :| Followable(m, k) && Under(k, p);
    UnderSplit(k, p);
    var t := m[k].target;
    UnderJoin(t, p[|k|..]);
    TargetShape(m, version, k);
    assert (t + p[|k|..])[0] == t[0];
    assert !IsStorageName(t) ==> Mapped(m, t + p[|k|..]);
  }

  // ---------------------------------------------------------------------------------------------
  // Renaming a directory
  // ---------------------------------------------------------------------------------------------

  predicate Apart(a: string, b: string) {
    !Under(a, b) && !Under(b, a)
  }

  /** Both names lie apart from everything mapped, and the origin carries no permission stamp or link. */
  ghost predicate NamesFree(m: Snapshot, a: string, b: string) {
    && a != "" && a[0] == '/' && b != "" && b[0] == '/' && Apart(a, b)
    && (forall k :: Followable(m, k) && k != a ==> Apart(a, k))
    && (forall k :: Followable(m, k) && k != b ==> Apart(b, k))
    && (a in m ==> Followable(m, a))
  }

  /** Nobody's content but the origin's own is stored under the destination's name. */
  ghost predicate DestinationFree(m: Snapshot, a: string, b: string) {
    forall k :: k in m && m[k].kind.Move? && m[k].target == b ==> k == a
  }

  /** The renames the map can express. */
  ghost predicate MayMove(m: Snapshot, a: string, b: string) {
    NamesFree(m, a, b) && DestinationFree(m, a, b)
  }

  /** The origin's content goes where its name was looked up before. */
  function Source(m: Snapshot, a: string): string {
    if a in m then m[a].target else a
  }

  /** The rename undoes the one that brought the origin there. */
  predicate Circular(m: Snapshot, a: string, b: string) {
    a in m && m[a].kind.Move? && m[a].target == b
  }

  /** What the map holds after a rename, name by name. */
  lemma {:induction false} MoveEntries(m: Snapshot, version: nat, a: string, b: string)
    requires Renames(m, version) && NamesFree(m, a, b)
    ensures
      var m' := AddDirectoryMove(m, version + 1, a, b);
      && (forall k :: k != a && k != b ==> (k in m' <==> k in m) && (k in m ==> m'[k] == m[k]))
      && (Circular(m, a, b) ==> a !in m' && b !in m')
      && (!Circular(m, a, b) ==> b in m' && m'[b].kind.Move? && m'[b].target == Source(m, a))
      && (!Circular(m, a, b) && a in m && m[a].kind.Move? ==> a !in m')
      && (!(a in m && m[a].kind.Move?) ==> a in m')
      && (a in m' ==> m'[a].kind.Reuse? && m'[a].target == ReuseName(version + 1))
  {
    if a in m {
      TargetShape(m, version, a);
    }
  }

  /** The storage name a rename issues is new. */
  lemma {:induction false} FreshReuseName(version: nat, t: string)
    requires Issued(t, version)
    ensures t != ReuseName(version + 1)
  {
    var n: nat :| n <= version && t == ReuseName(n);
    if t == ReuseName(version + 1) {
      ReuseNameInjective(n, version + 1);
    }
  }

  lemma {:induction false} IssuedLater(t: string, version: nat)
    requires Issued(t, version)
    ensures Issued(t, version + 1)
  {
    var n: nat :| n <= version && t == ReuseName(n);
    assert n <= version + 1;
  }

  /** Targets after a rename: unchanged, handed from origin to destination, or new. */
  lemma {:induction false} MoveTargets(m: Snapshot, version: nat, a: string, b: string, k: string)
    requires Renames(m, version) && MayMove(m, a, b)
    requires Followable(AddDirectoryMove(m, version + 1, a, b), k)
    ensures
      var m' := AddDirectoryMove(m, version + 1, a, b);
      && (m'[k].kind.Reuse? ==> Issued(m'[k].target, version + 1))
      && (m'[k].kind.Move? ==> Issued(m'[k].target, version + 1) || KeptAside(m', m'[k].target))
  {
    var m' := AddDirectoryMove(m, version + 1, a, b);
    MoveEntries(m, version, a, b);
    if k == a {
      assert version + 1 <= version + 1;
    } else {
      var owner := if k == b then a else k;
      if owner in m {
        var t := m[owner].target;
        if Issued(t, version) {
          IssuedLater(t, version);
        } else {
          assert m[owner].kind.Move? && KeptAside(m, t);
          assert t != a && t != b ==> m'[t] == m[t];
        }
      }
    }
  }

  lemma {:induction false} MoveTargetsApart(m: Snapshot, version: nat, a: string, b: string, j: string, k: string)
    requires Renames(m, version) && MayMove(m, a, b)
    requires
      var m' := AddDirectoryMove(m, version + 1, a, b);
      Followable(m', j) && Followable(m', k) && j != k
    ensures
      var m' := AddDirectoryMove(m, version + 1, a, b);
      m'[j].target != m'[k].target
  {
    MoveEntries(m, version, a, b);
    if j == a || k == a {
      var o := if j == a then k else j;
      var owner := if o == b then a else o;
      if owner in m {
        OldTargetNotNew(m, version, owner);
      }
    } else {
      var oj, ok := if j == b then a else j, if k == b then a else k;
      if oj in m && ok in m {
        assert Followable(m, oj) && Followable(m, ok);
      } else {
        var o := if oj in m then oj else ok;
        TargetNotUnmapped(m, version, o, a);
      }
    }
  }

  lemma {:induction false} OldTargetNotNew(m: Snapshot, version: nat, k: string)
    requires Renames(m, version) && Followable(m, k)
    ensures m[k].target != ReuseName(version + 1)
  {
    TargetShape(m, version, k);
    if Issued(m[k].target, version) {
      FreshReuseName(version, m[k].target);
    } else {
      assert KeptAside(m, m[k].target);
      assert ReuseName(version + 1)[0] == '|';
    }
  }

  lemma {:induction false} TargetNotUnmapped(m: Snapshot, version: nat, k: string, a: string)
    requires Renames(m, version) && Followable(m, k) && a !in m && a != "" && a[0] == '/'
    ensures m[k].target != a
  {
    TargetShape(m, version, k);
  }

  lemma {:induction false} MoveKeepsNamesApart(m: Snapshot, version: nat, a: string, b: string)
    requires Renames(m, version) && MayMove(m, a, b)
    ensures NamesApart(AddDirectoryMove(m, version + 1, a, b))
  {
    var m' := AddDirectoryMove(m, version + 1, a, b);
    forall k | k in m'
      ensures !m'[k].kind.Symlink? && (Followable(m', k) ==> MovedName(m, a, b, k) && k != "" && k[0] == '/') {
      MoveFollowable(m, version, a, b, k);
    }
    forall j, k | MovedName(m, a, b, j) && MovedName(m, a, b, k) && Under(j, k) ensures j == k {
      MovedNamesApart(m, a, b, j, k);
    }
  }

  /** The names that may be mapped after a rename. */
  ghost predicate MovedName(m: Snapshot, a: string, b: string, k: string) {
    k == a || k == b || Followable(m, k)
  }

  lemma {:induction false} MoveFollowable(m: Snapshot, version: nat, a: string, b: string, k: string)
    requires Renames(m, version) && MayMove(m, a, b)
    ensures
      var m' := AddDirectoryMove(m, version + 1, a, b);
      k in m' ==> !m'[k].kind.Symlink? && (Followable(m', k) ==> MovedName(m, a, b, k) && k != "" && k[0] == '/')
  {
    MoveEntries(m, version, a, b);
  }

  lemma {:induction false} MovedNamesApart(m: Snapshot, a: string, b: string, j: string, k: string)
    requires NamesApart(m) && MayMove(m, a, b) && MovedName(m, a, b, j) && MovedName(m, a, b, k) && Under(j, k)
    ensures j == k
  {}

  lemma {:induction false} MoveKeepsRenames(m: Snapshot, version: nat, a: string, b: string)
    requires Renames(m, version) && MayMove(m, a, b)
    ensures Renames(AddDirectoryMove(m, version + 1, a, b), version + 1)
  {
    var m' := AddDirectoryMove(m, version + 1, a, b);
    MoveKeepsNamesApart(m, version, a, b);
    assert TargetsIssued(m', version + 1) by {
      forall k | Followable(m', k)
        ensures m'[k].kind.Reuse? ==> Issued(m'[k].target, version + 1)
        ensures m'[k].kind.Move? ==> Issued(m'[k].target, version + 1) || KeptAside(m', m'[k].target)
      {
        MoveTargets(m, version, a, b, k);
      }
    }
    assert TargetsDistinct(m') by {
      forall j, k | Followable(m', j) && Followable(m', k) && j != k ensures m'[j].target != m'[k].target {
        MoveTargetsApart(m, version, a, b, j, k);
      }
    }
  }

  /** After renaming a to b, b/x is stored where a/x was. */
  lemma {:induction false} MoveTakesContent(m: Snapshot, version: nat, a: string, b: string, x: string)
    requires Renames(m, version) && MayMove(m, a, b)
    requires Suffix(x) && UserPath(a + x) && UserPath(b + x)
    ensures
      var m' := AddDirectoryMove(m, version + 1, a, b);
      WellFormed(m) && WellFormed(m') && Storage(m', b + x) == Storage(m, a + x)
  {
    RenamesWellFormed(m, version);
    OriginStorage(m, version, a, x);
    DestinationStorage(m, version, a, b, x);
  }

  /** Where a directory is stored before it is moved. */
  lemma {:induction false} OriginStorage(m: Snapshot, version: nat, a: string, x: string)
    requires Renames(m, version) && WellFormed(m) && Suffix(x) && UserPath(a + x) && (a in m ==> Followable(m, a))
    requires forall k :: Followable(m, k) && k != a ==> Apart(a, k)
    ensures Storage(m, a + x) == Source(m, a) + x
  {
    if a in m {
      ReusedStorage(m, version, a, x);
    } else {
      Unmapped(m, a, x);
      StorageForm(m, version, a + x);
    }
  }

  /** Where it is stored afterwards. */
  lemma {:induction false} DestinationStorage(m: Snapshot, version: nat, a: string, b: string, x: string)
    requires Renames(m, version) && MayMove(m, a, b) && Suffix(x) && UserPath(b + x)
    ensures
      var m' := AddDirectoryMove(m, version + 1, a, b);
      WellFormed(m') && Storage(m', b + x) == Source(m, a) + x
  {
    var m' := AddDirectoryMove(m, version + 1, a, b);
    MoveKeepsRenames(m, version, a, b);
    if Circular(m, a, b) {
      CircularUnmaps(m, version, a, b, x);
      StorageForm(m', version + 1, b + x);
    } else {
      MoveEntries(m, version, a, b);
      ReusedStorage(m', version + 1, b, x);
    }
  }

  lemma {:induction false} CircularUnmaps(m: Snapshot, version: nat, a: string, b: string, x: string)
    requires Renames(m, version) && MayMove(m, a, b) && Circular(m, a, b) && Suffix(x)
    ensures !Mapped(AddDirectoryMove(m, version + 1, a, b), b + x)
  {
    MoveEntries(m, version, a, b);
    Unmapped(AddDirectoryMove(m, version + 1, a, b), b, x);
  }

  /** Below a name that is apart from everything mapped, nothing is mapped. */
  lemma {:induction false} Unmapped(m: Snapshot, a: string, x: string)
    requires Suffix(x) && forall k :: Followable(m, k) ==> Apart(a, k)
    ensures !Mapped(m, a + x)
  {
    UnderJoin(a, x);
    forall k | Followable(m, k) ensures !Under(k, a + x) {
      if Under(k, a + x) { UnderLinear(a, k, a + x); }
    }
  }

  /** After renaming a to b, no path below a shares storage with anything stored before: the old name is empty. */
  lemma {:induction false} MoveEmptiesOrigin(m: Snapshot, version: nat, a: string, b: string, x: string, p: string)
    requires Renames(m, version) && MayMove(m, a, b)
    requires Suffix(x) && UserPath(a + x) && UserPath(p)
    ensures
      var m' := AddDirectoryMove(m, version + 1, a, b);
      WellFormed(m) && WellFormed(m') && Storage(m', a + x) != Storage(m, p)
  {
    var m' := AddDirectoryMove(m, version + 1, a, b);
    MoveKeepsRenames(m, version, a, b);
    MoveEntries(m, version, a, b);
    if a in m' {
      NewStorageUnused(m, version, x, p);
      ReusedStorage(m', version + 1, a, x);
    } else {
      MovedNameUnused(m, version, a, x, p);
      Unmapped(m', a, x);
      StorageForm(m', version + 1, a + x);
    }
  }

  lemma {:induction false} ReusedStorage(m: Snapshot, version: nat, a: string, x: string)
    requires Renames(m, version) && Followable(m, a) && Suffix(x) && UserPath(a + x)
    ensures WellFormed(m) && Storage(m, a + x) == m[a].target + x
  {
    StorageForm(m, version, a + x);
    UnderJoin(a, x);
  }

  lemma {:induction false} NewStorageUnused(m: Snapshot, version: nat, x: string, p: string)
    requires Renames(m, version) && UserPath(p) && Suffix(x)
    ensures WellFormed(m) && Storage(m, p) != ReuseName(version + 1) + x
  {
    StorageForm(m, version, p);
    var unused := ReuseName(version + 1);
    assert (unused + x)[0] == '|';
    if Mapped(m, p) {
      var k :| Followable(m, k) && Under(k, p);
      UnderSplit(k, p);
      TargetShape(m, version, k);
      OldTargetNotNew(m, version, k);
      var t := m[k].target;
      assert (t + p[|k|..])[0] == t[0];
      if t + p[|k|..] == unused + x {
        SameHead(t, p[|k|..], unused, x);
      }
    }
  }

  /** A name that is itself only an alias of other storage is nobody's storage. */
  lemma {:induction false} MovedNameUnused(m: Snapshot, version: nat, a: string, x: string, p: string)
    requires Renames(m, version) && UserPath(p) && Suffix(x) && a in m && m[a].kind.Move?
    ensures WellFormed(m) && Storage(m, p) != a + x
  {
    StorageForm(m, version, p);
    UnderJoin(a, x);
    assert Followable(m, a) && Mapped(m, a + x);
    assert (a + x)[0] == '/';
    if Mapped(m, p) {
      var k :| Followable(m, k) && Under(k, p);
      UnderSplit(k, p);
      TargetShape(m, version, k);
      var t := m[k].target;
      UnderJoin(t, p[|k|..]);
      assert (t + p[|k|..])[0] == t[0];
      if t + p[|k|..] == a + x {
        UnderLinear(t, a, a + x);
      }
    }
  }

  /** Storage depends only on the mappings of the path's own directories. */
  lemma {:induction false} SameStorage(m: Snapshot, version: nat, m': Snapshot, version': nat, p: string)
    requires Renames(m, version) && Renames(m', version') && UserPath(p)
    requires forall k :: Under(k, p) ==> (Followable(m, k) <==> Followable(m', k))
    requires forall k :: Under(k, p) && Followable(m, k) ==> m'[k].target == m[k].target
    ensures WellFormed(m) && WellFormed(m') && Storage(m', p) == Storage(m, p)
  {
    StorageForm(m, version, p);
    StorageForm(m', version', p);
    if Mapped(m, p) {
      var k :| Followable(m, k) && Under(k, p);
      assert Followable(m', k);
    }
  }

  /** Paths outside both directories are stored where they were. */
  lemma {:induction false} MoveKeepsOthers(m: Snapshot, version: nat, a: string, b: string, p: string)
    requires Renames(m, version) && MayMove(m, a, b)
    requires UserPath(p) && !Under(a, p) && !Under(b, p)
    ensures
      var m' := AddDirectoryMove(m, version + 1, a, b);
      WellFormed(m) && WellFormed(m') && Storage(m', p) == Storage(m, p)
  {
    MoveKeepsRenames(m, version, a, b);
    MoveEntries(m, version, a, b);
    SameStorage(m, version, AddDirectoryMove(m, version + 1, a, b), version + 1, p);
  }

  // ---------------------------------------------------------------------------------------------
  // Permission changes and removals
  // ---------------------------------------------------------------------------------------------

  lemma {:induction false} RenamesLater(m: Snapshot, version: nat)
    requires Renames(m, version)
    ensures Renames(m, version + 1)
  {
    forall k | k in m && Issued(m[k].target, version) ensures Issued(m[k].target, version + 1) {
      IssuedLater(m[k].target, version);
    }
  }

  lemma {:induction false} PermissionChangeKeepsRenames(m: Snapshot, version: nat, path: string)
    requires Renames(m, version)
    ensures
      var m' := AddPermissionChange(m, version + 1, path);
      && Renames(m', version + 1)
      && (forall k :: Followable(m', k) <==> Followable(m, k))
      && (forall k :: Followable(m, k) ==> m'[k].target == m[k].target)
  {
    var m' := AddPermissionChange(m, version + 1, path);
    assert forall k :: Followable(m', k) <==> Followable(m, k);
    assert forall k :: Followable(m', k) ==> m'[k].target == m[k].target && m'[k].kind == m[k].kind;
    RenamesLater(m, version);
    assert forall t :: KeptAside(m, t) ==> KeptAside(m', t);
  }

  /** A permission change moves nothing. */
  lemma {:induction false} PermissionChangeKeepsStorage(m: Snapshot, version: nat, path: string, p: string)
    requires Renames(m, version) && UserPath(p)
    ensures
      var m' := AddPermissionChange(m, version + 1, path);
      WellFormed(m) && WellFormed(m') && Storage(m', p) == Storage(m, p)
  {
    PermissionChangeKeepsRenames(m, version, path);
    SameStorage(m, version, AddPermissionChange(m, version + 1, path), version + 1, p);
  }

  /** The mapping that goes away with a directory must not be the one that keeps a renamed directory's old name
    aside. */
  ghost predicate MayRemove(m: Snapshot, k: string) {
    forall j :: j in m && m[j].kind.Move? ==> m[j].target != k
  }

  /** Removing a directory's mapping leaves all paths outside it where they were. */
  lemma {:induction false} RemovalKeepsOthers(m: Snapshot, version: nat, k: string, p: string)
    requires Renames(m, version) && MayRemove(m, k) && UserPath(p) && !Under(k, p)
    ensures
      var m' := AddUnlink(m, k);
      Renames(m', version + 1) && WellFormed(m) && WellFormed(m') && Storage(m', p) == Storage(m, p)
  {
    RemovalKeepsRenames(m, version, k);
    SameStorage(m, version, AddUnlink(m, k), version + 1, p);
  }

  lemma {:induction false} RemovalKeepsRenames(m: Snapshot, version: nat, k: string)
    requires Renames(m, version) && MayRemove(m, k)
    ensures Renames(AddUnlink(m, k), version + 1)
  {
    var m' := AddUnlink(m, k);
    RenamesLater(m, version);
    assert forall j :: Followable(m', j) ==> Followable(m, j) && m'[j] == m[j];
    forall j | j in m' && m'[j].kind.Move? && KeptAside(m, m[j].target) ensures KeptAside(m', m'[j].target) {
      assert m[j].target != k;
    }
  }

  // ---------------------------------------------------------------------------------------------
  // Whole histories
  // ---------------------------------------------------------------------------------------------

  ghost predicate Allowed(m: Snapshot, e: DbEntry) {
    var origin := PathCodec.Decode(e.origin);
    match e
    case DbMove(_, t) => MayMove(m, origin, PathCodec.Decode(t))
    case DbSymlink(_, _) => false
    case DbNone(_) => true
    case DbRemoved(_) => MayRemove(m, origin)
  }

  function MapOf(log: seq<DbEntry>): Snapshot {
    Replay(Apply, map[], 0, log)
  }

  ghost predicate History(log: seq<DbEntry>) {
    Admissible(Apply, (m, e) => Allowed(m, e), map[], 0, log)
  }

  lemma {:induction false} EntryKeepsRenames(m: Snapshot, version: nat, e: DbEntry)
    requires Renames(m, version) && Allowed(m, e)
    ensures Renames(Apply(m, version + 1, e), version + 1)
  {
    match e
    case DbMove(o, t) => MoveKeepsRenames(m, version, PathCodec.Decode(o), PathCodec.Decode(t));
    case DbNone(o) => PermissionChangeKeepsRenames(m, version, PathCodec.Decode(o));
    case DbRemoved(o) => RemovalKeepsRenames(m, version, PathCodec.Decode(o));
  }

  lemma {:induction false} HistoryKeepsRenames(log: seq<DbEntry>)
    requires History(log)
    ensures Renames(MapOf(log), |log|)
  {
    var allowed := (m: Snapshot, e: DbEntry) => Allowed(m, e);
    var inv := (m: Snapshot, v: nat) => Renames(m, v);
    forall m, v: nat, e | inv(m, v) && allowed(m, e) ensures inv(Apply(m, v + 1, e), v + 1) {
      EntryKeepsRenames(m, v, e);
    }
    ReplayKeeps(Apply, allowed, inv, map[], 0, log);
  }

  /** toSystemPath returns the storage key of an ordinary user path. */
  lemma {:induction false} ToSystemPathIsStorage(m: Snapshot, p: string)
    requires WellFormed(m) && ':' !in p && |p| <= PATH_MAX
    ensures ToSystemPath(m, p, true, HOP_LIMIT).Resolved? && ToSystemPath(m, p, true, HOP_LIMIT).path == Storage(m, p)
  {
    ResolutionBounded(m, p, 0, 0, true, false, HOP_LIMIT);
  }

  /** After any admissible history of renames, removals and permission changes, no two user paths share a key. */
  lemma {:induction false} SystemPathsInjective(log: seq<DbEntry>, p: string, q: string)
    requires History(log) && UserPath(p) && UserPath(q)
    requires ':' !in p && ':' !in q && |p| <= PATH_MAX && |q| <= PATH_MAX
    ensures WellFormed(MapOf(log))
    ensures ToSystemPath(MapOf(log), p, true, HOP_LIMIT).Resolved?
      && ToSystemPath(MapOf(log), q, true, HOP_LIMIT).Resolved?
    ensures ToSystemPath(MapOf(log), p, true, HOP_LIMIT).path == ToSystemPath(MapOf(log), q, true, HOP_LIMIT).path ==>
      p == q
  {
    var m := MapOf(log);
    HistoryKeepsRenames(log);
    RenamesWellFormed(m, |log|);
    ToSystemPathIsStorage(m, p);
    ToSystemPathIsStorage(m, q);
    if Storage(m, p) == Storage(m, q) {
      StorageInjective(m, |log|, p, q);
    }
  }
}
