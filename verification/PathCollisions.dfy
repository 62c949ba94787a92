/** Where directory renames through the path map go wrong: exactly which removals and moves make two user paths share
  storage, and histories in which that happens.
 */
module PathCollisions {
  import opened PathMap
  import opened PathRename
  import Prelude
  import PathCodec
  import opened LogReplay

  /** Resolving p ends, at s. This makes sense on every map, also where resolutions need not end. */
  ghost predicate StoredAt(m: Snapshot, p: string, s: string) {
    exists limit: nat :: EndsAt(Hops(m, p, 0, 0, true, false, limit), s)
  }

  predicate EndsAt(r: Resolution, s: string) {
    r.Resolved? && r.path == s
  }

  /** No two user paths share storage. */
  ghost predicate Separate(m: Snapshot) {
    forall p, q, s :: UserPath(p) && UserPath(q) && StoredAt(m, p, s) && StoredAt(m, q, s) ==> p == q
  }

  /** Every mapped name passed a search. */
  ghost predicate ShortMapped(m: Snapshot) {
    forall k :: Followable(m, k) ==> ShortNames(k)
  }

  lemma {:induction false} StoredAtStorage(m: Snapshot, p: string, s: string)
    requires WellFormed(m) && StoredAt(m, p, s)
    ensures s == Storage(m, p)
  {
    var limit: nat :| EndsAt(Hops(m, p, 0, 0, true, false, limit), s);
    ResolutionBounded(m, p, 0, 0, true, false, HOP_LIMIT);
    if limit <= HOP_LIMIT {
      HopsFurther(m, p, 0, 0, true, false, limit, HOP_LIMIT);
    } else {
      HopsFurther(m, p, 0, 0, true, false, HOP_LIMIT, limit);
    }
  }

  lemma {:induction false} RenamesSeparate(m: Snapshot, version: nat)
    requires Renames(m, version)
    ensures Separate(m)
  {
    RenamesWellFormed(m, version);
    forall p, q, s | UserPath(p) && UserPath(q) && StoredAt(m, p, s) && StoredAt(m, q, s) ensures p == q {
      StoredAtStorage(m, p, s);
      StoredAtStorage(m, q, s);
      StorageInjective(m, version, p, q);
    }
  }

  // ---------------------------------------------------------------------------------------------
  // Hops on any map
  // ---------------------------------------------------------------------------------------------

  ghost predicate NoLinks(m: Snapshot) {
    forall k :: k in m ==> !m[k].kind.Symlink?
  }

  /** Nothing on the way up from t may be followed. */
  ghost predicate Final(m: Snapshot, t: string, followReuse: bool) {
    forall q :: Under(q, t) ==> !Followed(m, q, followReuse, true)
  }

  lemma {:induction false} FinalEnds(m: Snapshot, t: string, stamp: int, followReuse: bool, limit: nat)
    requires NoLinks(m) && Final(m, t, followReuse)
    ensures EndsAt(Hops(m, t, stamp, 0, followReuse, false, limit), t)
  {
    SearchFindsDirectory(m, t, 0, followReuse, false);
    NoSecondHop(m, t, stamp, followReuse, limit);
  }

  lemma {:induction false} MoveHop(m: Snapshot, j: string, stamp: int, followReuse: bool, limit: nat)
    requires j in m && m[j].kind.Move? && limit > 0
    ensures
      var seen := Prelude.Max(stamp, m[j].stamp);
      Hops(m, j, stamp, 0, followReuse, false, limit) == Hops(m, m[j].target, seen, 0, false, false, limit - 1)
  {
    assert j[|j|..] == "" && m[j].target + "" == m[j].target;
  }

  // ---------------------------------------------------------------------------------------------
  // Removing a mapping
  // ---------------------------------------------------------------------------------------------

  /** Once the mapping that keeps a moved directory's old name aside is removed, the moved directory and that name share
    storage. */
  lemma {:induction false} RemovalCollides(m: Snapshot, version: nat, j: string, k: string)
    requires Renames(m, version) && j in m && m[j].kind.Move? && m[j].target == k && k != "" && k[0] == '/'
    ensures j != k && StoredAt(AddUnlink(m, k), j, k) && StoredAt(AddUnlink(m, k), k, k)
  {
    var m' := AddUnlink(m, k);
    assert !Issued(k, version) && KeptAside(m, k);
    assert Followable(m, k);
    forall q, followReuse | Under(q, k) ensures !Followed(m', q, followReuse, true) {
      assert Followable(m', q) ==> Followable(m, q) && q != k;
    }
    FinalEnds(m', k, 0, true, 0);
    MoveHop(m', j, 0, true, 1);
    FinalEnds(m', k, Prelude.Max(0, m'[j].stamp), false, 0);
  }

  /** Removing the mapping of a user path keeps all user paths apart exactly when the path is not kept aside for a moved
    directory. */
  lemma {:induction false} RemovalExact(m: Snapshot, version: nat, k: string)
    requires Renames(m, version) && ShortMapped(m) && UserPath(k)
    ensures Separate(AddUnlink(m, k)) <==> MayRemove(m, k)
  {
    if MayRemove(m, k) {
      RemovalKeepsRenames(m, version, k);
      RenamesSeparate(AddUnlink(m, k), version + 1);
    } else {
      var j :| j in m && m[j].kind.Move? && m[j].target == k;
      assert Followable(m, j);
      RemovalCollides(m, version, j, k);
    }
  }

  // ---------------------------------------------------------------------------------------------
  // Moving a directory
  // ---------------------------------------------------------------------------------------------

  /** Moving a to b leaves the new mapping of b, and every other mapping to b, at the content of a. */
  lemma {:induction false} SourceIsFinal(m: Snapshot, version: nat, a: string, b: string)
    requires Renames(m, version) && NamesFree(m, a, b) && !Circular(m, a, b)
    ensures Final(AddDirectoryMove(m, version + 1, a, b), Source(m, a), false)
  {
    var m', t := AddDirectoryMove(m, version + 1, a, b), Source(m, a);
    forall q | Under(q, t) ensures !Followed(m', q, false, true) {
      SourceIsFinalAt(m, version, a, b, q);
    }
  }

  lemma {:induction false} SourceIsFinalAt(m: Snapshot, version: nat, a: string, b: string, q: string)
    requires Renames(m, version) && NamesFree(m, a, b) && !Circular(m, a, b) && Under(q, Source(m, a))
    ensures !Followed(AddDirectoryMove(m, version + 1, a, b), q, false, true)
  {
    var t := Source(m, a);
    MoveEntries(m, version, a, b);
    if a in m {
      TargetShape(m, version, a);
      if IsStorageName(t) {
        StorageNameFirst(t, q, t);
        assert q != a && q != b && !Followable(m, q);
      } else {
        assert Followable(m, t) && t != b;
        assert q == t || !Followable(m, q);
        assert q != b;
      }
    } else {
      assert q != b && (q == a || !Followable(m, q));
    }
  }

  lemma {:induction false} MoveCollides(m: Snapshot, version: nat, a: string, b: string, j: string)
    requires Renames(m, version) && NamesFree(m, a, b) && j in m && m[j].kind.Move? && m[j].target == b && j != a
    ensures
      var m' := AddDirectoryMove(m, version + 1, a, b);
      j != b && StoredAt(m', j, Source(m, a)) && StoredAt(m', b, Source(m, a))
  {
    var m', t := AddDirectoryMove(m, version + 1, a, b), Source(m, a);
    assert !Issued(b, version) && KeptAside(m, b);
    assert Followable(m, j) && (a in m ==> Followable(m, a));
    assert !Circular(m, a, b);
    MoveEntries(m, version, a, b);
    SourceIsFinal(m, version, a, b);
    assert NoLinks(m');
    MoveHop(m', b, 0, true, 1);
    FinalEnds(m', t, Prelude.Max(0, m'[b].stamp), false, 0);
    var seen := Prelude.Max(0, m'[j].stamp);
    MoveHop(m', j, 0, true, 2);
    MoveHop(m', b, seen, false, 1);
    FinalEnds(m', t, Prelude.Max(seen, m'[b].stamp), false, 0);
  }

  /** Given free names, a move keeps all user paths apart exactly when nobody's content but the origin's own is stored
    under the destination's name. */
  lemma {:induction false} MoveExact(m: Snapshot, version: nat, a: string, b: string)
    requires Renames(m, version) && ShortMapped(m) && NamesFree(m, a, b) && UserPath(b)
    ensures Separate(AddDirectoryMove(m, version + 1, a, b)) <==> DestinationFree(m, a, b)
  {
    if DestinationFree(m, a, b) {
      MoveKeepsRenames(m, version, a, b);
      RenamesSeparate(AddDirectoryMove(m, version + 1, a, b), version + 1);
    } else {
      var j :| j in m && m[j].kind.Move? && m[j].target == b && j != a;
      assert Followable(m, j);
      MoveCollides(m, version, a, b, j);
    }
  }

  // ---------------------------------------------------------------------------------------------
  // Histories
  // ---------------------------------------------------------------------------------------------

  /** An ordinary absolute path, which is logged as it is. */
  predicate Plain(p: string) {
    p != "" && p[0] == '/' && ':' !in p && |p| < PathCodec.NPOS
  }

  function Mv(a: string, b: string): (e: DbEntry)
    requires Plain(a) && Plain(b) && a != b
    ensures forall m, version: nat :: Apply(m, version, e) == AddDirectoryMove(m, version, a, b)
  {
    DbMove(a, b)
  }

  function Removed(k: string): (e: DbEntry)
    requires Plain(k)
    ensures forall m, version: nat :: Apply(m, version, e) == AddUnlink(m, k)
  {
    DbRemoved(k)
  }

  function Chmod(d: string): (e: DbEntry)
    requires Plain(d)
    ensures forall m, version: nat :: Apply(m, version, e) == AddPermissionChange(m, version, d)
  {
    DbNone(d)
  }

  lemma {:induction false} ChmodIs(d: string)
    requires Plain(d)
    ensures Chmod(d).DbNone? && PathCodec.Decode(Chmod(d).origin) == d
  {}

  lemma {:induction false} EmptyMayMove(a: string, b: string)
    requires Plain(a) && Plain(b) && Apart(a, b)
    ensures Renames(map[], 0) && MayMove(map[], a, b)
  {}

  /** The map after the first move of a history. */
  lemma {:induction false} FirstMove(a: string, b: string)
    requires Plain(a) && Plain(b) && Apart(a, b)
    ensures Renames(AddDirectoryMove(map[], 1, a, b), 1)
  {
    var m: Snapshot := map[];
    EmptyMayMove(a, b);
    MoveKeepsRenames(m, 0, a, b);
    assert AddDirectoryMove(m, 0 + 1, a, b) == AddDirectoryMove(map[], 1, a, b);
  }

  lemma {:induction false} FirstMoveMap(a: string, b: string)
    requires a != b
    ensures AddDirectoryMove(map[], 1, a, b) == map[b := Mapping(Move, a, 0), a := Mapping(Reuse, ReuseName(1), 0)]
  {}

  lemma {:induction false} OneEntry(e: DbEntry)
    ensures MapOf([e]) == Apply(map[], 1, e)
  {
    assert [e] == [] + [e];
    ReplayOne(Apply, map[], 0, [], e);
  }

  lemma {:induction false} TwoEntries(e1: DbEntry, e2: DbEntry)
    ensures MapOf([e1, e2]) == Apply(Apply(map[], 1, e1), 2, e2)
  {
    assert [e1, e2] == ([] + [e1]) + [e2];
    ReplayOne(Apply, map[], 0, [], e1);
    ReplayOne(Apply, map[], 0, [] + [e1], e2);
  }

  lemma {:induction false} ThreeEntries(e1: DbEntry, e2: DbEntry, e3: DbEntry)
    ensures MapOf([e1, e2, e3]) == Apply(MapOf([e1, e2]), 3, e3)
  {
    assert [e1, e2, e3] == [e1, e2] + [e3];
    ReplayOne(Apply, map[], 0, [e1, e2], e3);
  }

  /** mv a b, mkdir a, rmdir a: the last step logs a removal, after which b and a share storage. */
  lemma {:induction false} RemovedReuseHistory(a: string, b: string)
    requires Plain(a) && Plain(b) && Apart(a, b)
    ensures
      var m := MapOf([Mv(a, b), Removed(a)]);
      StoredAt(m, b, a) && StoredAt(m, a, a)
  {
    FirstMove(a, b);
    FirstMoveMap(a, b);
    TwoEntries(Mv(a, b), Removed(a));
    RemovalCollides(AddDirectoryMove(map[], 1, a, b), 1, b, a);
  }

  ghost predicate ThreeNames(d: string, t: string, x: string) {
    Plain(d) && Plain(t) && Plain(x) && Apart(d, t) && Apart(t, x) && Apart(x, d)
  }

  lemma {:induction false} SecondMoveFree(d: string, t: string, x: string)
    requires ThreeNames(d, t, x)
    ensures
      var m := AddDirectoryMove(map[], 1, d, x);
      NamesFree(m, t, d) && x in m && m[x].kind.Move? && m[x].target == d
  {
    FirstMoveMap(d, x);
  }

  /** mv d x, mv t d: the two directories share storage. */
  lemma {:induction false} MovedOntoHistory(d: string, t: string, x: string)
    requires ThreeNames(d, t, x)
    ensures
      var m := MapOf([Mv(d, x), Mv(t, d)]);
      StoredAt(m, x, t) && StoredAt(m, d, t)
  {
    FirstMove(d, x);
    SecondMoveFree(d, t, x);
    TwoEntries(Mv(d, x), Mv(t, d));
    MoveCollides(AddDirectoryMove(map[], 1, d, x), 1, t, d, x);
  }

  // ---------------------------------------------------------------------------------------------
  // Resolutions that never end
  // ---------------------------------------------------------------------------------------------

  ghost predicate Endless(m: Snapshot, p: string, stamp: int, followReuse: bool) {
    forall limit: nat :: Hops(m, p, stamp, 0, followReuse, false, limit).Unfinished?
  }

  /** The moves of these names lead to each other. */
  predicate Cyclic(m: Snapshot, c: set<string>) {
    forall k | k in c :: k in m && m[k].kind.Move? && m[k].target in c
  }

  ghost predicate InCycle(m: Snapshot, k: string) {
    exists c :: Cyclic(m, c) && k in c
  }

  /** No links, mapped names lie apart from each other and from the targets of moves other than themselves, and reuse
    mappings lead to storage names. */
  ghost predicate AllApart(m: Snapshot) {
    && NamesApart(m)
    && (forall k :: k in m && m[k].kind.Reuse? ==> IsStorageName(m[k].target))
    && (forall j, k :: Followable(m, j) && k in m && m[k].kind.Move? ==> j == m[k].target || Apart(j, m[k].target))
  }

  lemma {:induction false} ShortJoin(k: string, t: string, x: string)
    requires Suffix(x) && ShortNames(k + x) && ShortNames(t)
    ensures ShortNames(t + x)
    decreases |x|
  {
    if x == "" {
      assert t + x == t;
    } else {
      var pos := LastSlash(x);
      LastSlashJoin(k, x);
      LastSlashJoin(t, x);
      ShortJoin(k, t, x[..pos]);
    }
  }

  lemma {:induction false} LastSlashJoin(t: string, x: string)
    requires x != "" && Suffix(x)
    ensures LastSlash(x) >= 0 && LastSlash(t + x) == |t| + LastSlash(x)
    ensures (t + x)[..LastSlash(t + x)] == t + x[..LastSlash(x)]
  {
    var pos := LastSlash(x);
    assert x[0] == '/';
    assert (t + x)[|t| + pos] == x[pos];
    assert forall i :: |t| <= i < |t + x| ==> (t + x)[i] == x[i - |t|];
  }

  /** The names of a cycle are followed for ever, on any map. */
  lemma {:induction false} CycleNeverEnds(
      m: Snapshot, c: set<string>, k: string, stamp: int, followReuse: bool, limit: nat)
    requires Cyclic(m, c) && k in c
    ensures Hops(m, k, stamp, 0, followReuse, false, limit).Unfinished?
    decreases limit
  {
    if limit > 0 {
      MoveHop(m, k, stamp, followReuse, limit);
      CycleNeverEnds(m, c, m[k].target, Prelude.Max(stamp, m[k].stamp), false, limit - 1);
    }
  }

  /** Below a moved name the search finds that name. */
  lemma {:induction false} MovedIsFound(m: Snapshot, k: string, p: string, stamp: int, followReuse: bool)
    requires NamesApart(m) && k in m && m[k].kind.Move? && Under(k, p) && ShortNames(p)
    ensures
      var r := Search(m, p, stamp, followReuse, false);
      r.Found? && r.path == k
  {
    assert MayFollow(m, p, k, followReuse, false) && Followable(m, k);
    SearchComplete(m, p, stamp, followReuse, false);
    SearchFindsDirectory(m, p, stamp, followReuse, false);
    var r := Search(m, p, stamp, followReuse, false);
    UnderLinear(k, r.path, p);
    assert Followable(m, r.path);
  }

  /** So are the paths below them. */
  lemma {:induction false} CycleBelowNeverEnds(
      m: Snapshot, c: set<string>, k: string, x: string, stamp: int, followReuse: bool, limit: nat)
    requires NamesApart(m) && ShortMapped(m) && Cyclic(m, c) && k in c && Suffix(x) && ShortNames(k + x)
    ensures Hops(m, k + x, stamp, 0, followReuse, false, limit).Unfinished?
    decreases limit
  {
    var t := m[k].target;
    UnderJoin(k, x);
    MovedIsFound(m, k, k + x, stamp, followReuse);
    if limit > 0 {
      assert Followable(m, t);
      ShortJoin(k, t, x);
      CycleBelowNeverEnds(m, c, t, x, Search(m, k + x, stamp, followReuse, false).stamp, false, limit - 1);
    }
  }

  /** Without an end the first hop is a move, and what follows has no end either. */
  lemma {:induction false} EndlessHop(m: Snapshot, p: string, stamp: int, followReuse: bool)
    returns (k: string, seen: int)
    requires AllApart(m) && Endless(m, p, stamp, followReuse)
    ensures Under(k, p) && k in m && m[k].kind.Move?
    ensures Under(m[k].target, m[k].target + p[|k|..]) && Endless(m, m[k].target + p[|k|..], seen, false)
  {
    var r := Search(m, p, stamp, followReuse, false);
    SearchFindsDirectory(m, p, stamp, followReuse, false);
    assert Hops(m, p, stamp, 0, followReuse, false, 0).Unfinished?;
    k, seen := r.path, r.stamp;
    var next := m[k].target + p[|k|..];
    UnderSplit(k, p);
    UnderJoin(m[k].target, p[|k|..]);
    var again := !m[k].kind.Move?;
    forall limit: nat ensures Hops(m, next, seen, 0, again, false, limit).Unfinished? {
      assert Hops(m, p, stamp, 0, followReuse, false, limit + 1).Unfinished?;
    }
    if m[k].kind.Reuse? { StorageNameEnds(m, m[k].target, next, seen); }
  }

  lemma {:induction false} StorageNameEnds(m: Snapshot, t: string, p: string, stamp: int)
    requires AllApart(m) && IsStorageName(t) && Under(t, p)
    ensures !Endless(m, p, stamp, true)
  {
    var r := Search(m, p, stamp, true, false);
    SearchFindsDirectory(m, p, stamp, true, false);
    if r.Found? {
      StorageNameFirst(t, r.path, p);
      assert Followable(m, r.path);
    }
    assert Hops(m, p, stamp, 0, true, false, 0).Resolved?;
  }

  /** Some path below a moved name never resolves. */
  ghost predicate Trapped(m: Snapshot, k: string) {
    && k in m && m[k].kind.Move?
    && exists p, stamp, followReuse :: Under(k, p) && Endless(m, p, stamp, followReuse)
  }

  lemma {:induction false} TrapLeadsOn(m: Snapshot, k: string)
    requires AllApart(m) && Trapped(m, k)
    ensures Trapped(m, m[k].target)
  {
    var p, stamp, followReuse :| Under(k, p) && Endless(m, p, stamp, followReuse);
    var j, seen := EndlessHop(m, p, stamp, followReuse);
    UnderLinear(j, k, p);
    assert Followable(m, j) && Followable(m, k);
    var t := m[k].target;
    var next := t + p[|k|..];
    var i, _ := EndlessHop(m, next, seen, false);
    UnderLinear(i, t, next);
    assert Followable(m, i);
  }

  /** On such a map a path resolves within some number of hops unless a directory of it lies on a cycle of moves. */
  lemma {:induction false} EndlessExact(m: Snapshot, p: string, stamp: int)
    requires AllApart(m) && ShortMapped(m) && ShortNames(p)
    ensures Endless(m, p, stamp, true) <==> exists k :: Under(k, p) && InCycle(m, k)
  {
    if Endless(m, p, stamp, true) {
      var c := set k | k in m && Trapped(m, k);
      forall k | k in c ensures m[k].kind.Move? && m[k].target in c { TrapLeadsOn(m, k); }
      var k, _ := EndlessHop(m, p, stamp, true);
      assert Cyclic(m, c) && k in c;
    }
    if k :| Under(k, p) && InCycle(m, k) {
      var c :| Cyclic(m, c) && k in c;
      forall limit: nat ensures Hops(m, p, stamp, 0, true, false, limit).Unfinished? {
        UnderSplit(k, p);
        CycleBelowNeverEnds(m, c, k, p[|k|..], stamp, true, limit);
      }
    }
  }

  /** Swapping two directories by way of a third name maps them to each other. */
  lemma {:induction false} SwapMap(d: string, t: string, x: string)
    requires d != t && t != x && x != d
    ensures
      var m1 := AddDirectoryMove(map[], 1, d, x);
      var m2 := AddDirectoryMove(m1, 2, t, d);
      AddDirectoryMove(m2, 3, x, t) == map[t := Mapping(Move, d, 0), d := Mapping(Move, t, 0)]
  {
    var m1 := AddDirectoryMove(map[], 1, d, x);
    FirstMoveMap(d, x);
    var m2 := AddDirectoryMove(m1, 2, t, d);
    assert m2 == map[x := Mapping(Move, d, 0), d := Mapping(Move, t, 0), t := Mapping(Reuse, ReuseName(2), 0)];
  }

  /** mv d x, mv t d, mv x t: after two directories were swapped, resolving either of them never ends. */
  lemma {:induction false} SwapNeverEnds(d: string, t: string, x: string, limit: nat)
    requires ThreeNames(d, t, x)
    ensures
      var m := MapOf([Mv(d, x), Mv(t, d), Mv(x, t)]);
      && Hops(m, d, 0, 0, true, false, limit).Unfinished?
      && Hops(m, t, 0, 0, true, false, limit).Unfinished?
  {
    TwoEntries(Mv(d, x), Mv(t, d));
    ThreeEntries(Mv(d, x), Mv(t, d), Mv(x, t));
    SwapMap(d, t, x);
    var m := map[t := Mapping(Move, d, 0), d := Mapping(Move, t, 0)];
    assert Cyclic(m, {d, t});
    CycleNeverEnds(m, {d, t}, d, 0, true, limit);
    CycleNeverEnds(m, {d, t}, t, 0, true, limit);
  }
}
