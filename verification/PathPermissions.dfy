/** The path-permission cache of one client: every inode carries the search restrictions of its ancestors, a logged
  timestamp tells when they may be out of date, and a stale inode is refreshed from its parent.
 */
module PathPermissions {
  import opened Prelude
  import opened Reachability

  /** Path components; the root is the empty path. */
  type Path = seq<string>

  datatype Inode = Inode(
    dir: bool,
    perm: Permissions,
    inherited: seq<Entry>,      // path_permission
    children: seq<Entry>,       // path_permission_children
    verified: nat)              // path_permission_verified

  type Tree = map<Path, Inode>

  /** Inodes, the permission timestamps of the path map and its version. */
  datatype Fs = Fs(inodes: Tree, stamps: map<Path, nat>, version: nat)

  datatype Status = OK | ENOENT | EACCES | ENOTDIR | EEXIST | EPERM | ENOTEMPTY

  function Parent(p: Path): Path
    requires p != []
  {
    p[..|p| - 1]
  }

  // ---------------------------------------------------------------------------------------------
  // Operations
  // ---------------------------------------------------------------------------------------------

  function Own(i: Inode): seq<Entry> {
    Without(Entries(i.perm), i.inherited)
  }

  /** The effect of computePathPermissionChildren. */
  function Recomputed(i: Inode): Inode {
    if Differs(i.children, Own(i)) then i.(children := Own(i)) else i
  }

  function Inherit(i: Inode, parent: Inode): Inode {
    var j := i.(inherited := parent.inherited + parent.children, verified := parent.verified);
    if j.dir then Recomputed(j) else j
  }

  function Stamp(stamps: map<Path, nat>, p: Path): nat {
    if p in stamps then stamps[p] else 0
  }

  /** The newest timestamp on the path. The search strips one component after the other and ends at the empty string,
    so the timestamp of "/" counts for "/" alone. */
  function Required(stamps: map<Path, nat>, p: Path): nat
    decreases |p|
  {
    if |p| <= 1 then Stamp(stamps, p) else Max(Stamp(stamps, p), Required(stamps, Parent(p)))
  }

  predicate Fresh(fs: Fs, p: Path)
    requires p in fs.inodes
  {
    fs.inodes[p].verified >= Required(fs.stamps, p)
  }

  function Check(list: seq<Entry>, c: Caller): Status {
    if Accepts(list, c) then OK else EACCES
  }

  /** A refused caller still gets the inode refreshed. A root directory that is stale would be looked up without end;
    RootIsFresh shows that this cannot happen. */
  function Lookup(fs: Fs, p: Path, c: Caller): (r: (Fs, Status))
    ensures r.0.inodes.Keys == fs.inodes.Keys
    ensures r.1 in {OK, EACCES} ==> p in fs.inodes
    decreases |p|, 0
  {
    if p !in fs.inodes then (fs, ENOENT)
    else if p == [] || Fresh(fs, p) then (fs, Check(fs.inodes[p].inherited, c))
    else
      var (mid, status) := LookupParent(fs, p, c);
      if status !in {OK, EACCES} then (mid, status)
      else
        var i := Inherit(mid.inodes[p], mid.inodes[Parent(p)]);
        (mid.(inodes := mid.inodes[p := i]), Check(i.inherited, c))
  }

  function LookupParent(fs: Fs, p: Path, c: Caller): (r: (Fs, Status))
    requires p != []
    ensures r.0.inodes.Keys == fs.inodes.Keys
    ensures r.1 in {OK, EACCES} ==> Parent(p) in fs.inodes
    decreases |p|, -1
  {
    var (mid, status) := Lookup(fs, Parent(p), c);
    if status != OK then (mid, status)
    else if !mid.inodes[Parent(p)].dir then (mid, ENOTDIR)
    else (mid, Check(mid.inodes[Parent(p)].children, c))
  }

  predicate Covers(have: Bits, want: Bits) {
    (want.r ==> have.r) && (want.w ==> have.w) && (want.x ==> have.x)
  }

  /** check_access; the superuser may do everything. */
  predicate Access(p: Permissions, c: Caller, want: Bits) {
    || c.uid == 0
    || (if c.uid == p.uid then Covers(p.mode.user, want)
        else if c.gid == p.gid then Covers(p.mode.group, want)
        else Covers(p.mode.other, want))
  }

  function Create(fs: Fs, p: Path, dir: bool, mode: Mode, c: Caller): (Fs, Status)
    requires p != []
  {
    var (fs1, found) := Lookup(fs, p, c);
    if found == OK then (fs1, EEXIST)
    else if found != ENOENT then (fs1, found)
    else
      var (fs2, status) := LookupParent(fs1, p, c);
      if status != OK then (fs2, status)
      else
        var d := fs2.inodes[Parent(p)];
        if !Access(d.perm, c, Bits(false, true, false)) then (fs2, EACCES)
        else (Insert(fs2, p, Inode(dir, Permissions(c.uid, c.gid, mode), [], [], 0)), OK)
  }

  function Insert(fs: Fs, p: Path, i: Inode): Fs
    requires p != [] && Parent(p) in fs.inodes
  {
    fs.(inodes := fs.inodes[p := Inherit(i, fs.inodes[Parent(p)])])
  }

  datatype Change = Chmod(mode: Mode) | Chown(uid: Option<nat>, gid: Option<nat>)

  /** The new permissions. A caller who is not the superuser loses the set-group bit of a regular file of another group
    with a chmod, and both set-id bits with a chown. */
  function Changed(p: Permissions, dir: bool, ch: Change, c: Caller): Permissions {
    match ch
    case Chmod(m) => p.(mode := if c.uid != 0 && c.gid != p.gid && !dir then m.(setgid := false) else m)
    case Chown(u, g) =>
      Permissions(
        if u.Some? then u.value else p.uid,
        if g.Some? then g.value else p.gid,
        if c.uid != 0 && (u.Some? || g.Some?) then p.mode.(setuid := false, setgid := false) else p.mode)
  }

  predicate MayChange(p: Permissions, ch: Change, c: Caller) {
    c.uid == 0 || (c.uid == p.uid && (ch.Chown? && ch.gid.Some? ==> ch.gid.value == c.gid))
  }

  /** The inode gets its new permissions; only a directory whose list for its children changed is logged. */
  function SetPermissions(fs: Fs, p: Path, perm: Permissions): Fs
    requires p in fs.inodes
  {
    var i := fs.inodes[p].(perm := perm);
    if i.dir && Differs(i.children, Own(i)) then
      var v := fs.version + 1;
      Fs(fs.inodes[p := Recomputed(i).(verified := v)], fs.stamps[p := v], v)
    else
      fs.(inodes := fs.inodes[p := i])
  }

  function ChangePermissions(fs: Fs, p: Path, ch: Change, c: Caller): (Fs, Status) {
    var (fs1, status) := Lookup(fs, p, c);
    if status != OK then (fs1, status)
    else if !MayChange(fs1.inodes[p].perm, ch, c) then (fs1, EPERM)
    else (SetPermissions(fs1, p, Changed(fs1.inodes[p].perm, fs1.inodes[p].dir, ch, c)), OK)
  }

  predicate HasChildren(m: Tree, p: Path) {
    exists q :: q in m.Keys && q != [] && Parent(q) == p
  }

  predicate StickyForbids(dir: Permissions, file: Permissions, c: Caller) {
    c.uid != 0 && dir.mode.sticky && c.uid != dir.uid && c.uid != file.uid
  }

  /** Deleting the metadata also drops the timestamp, by an entry of its own in the log. */
  function Drop(fs: Fs, p: Path): Fs {
    Fs(fs.inodes - {p}, fs.stamps - {p}, if p in fs.stamps then fs.version + 1 else fs.version)
  }

  function Remove(fs: Fs, p: Path, c: Caller): (Fs, Status)
    requires p != []
  {
    var (fs1, status) := Lookup(fs, p, c);
    if status != OK then (fs1, status)
    else if fs1.inodes[p].dir && HasChildren(fs1.inodes, p) then (fs1, ENOTEMPTY)
    else RemoveFound(fs1, p, c)
  }

  /** The part of a removal that concerns the parent directory. */
  function RemoveFound(fs: Fs, p: Path, c: Caller): (Fs, Status)
    requires p != [] && p in fs.inodes
  {
    var (mid, status) := LookupParent(fs, p, c);
    if status != OK then (mid, status)
    else
      var d := mid.inodes[Parent(p)].perm;
      if !Access(d, c, Bits(false, true, true)) || StickyForbids(d, mid.inodes[p].perm, c) then (mid, EACCES)
      else (Drop(mid, p), OK)
  }

  datatype Event =
    | Find(path: Path, caller: Caller)
    | Make(path: Path, dir: bool, mode: Mode, caller: Caller)
    | SetPerm(path: Path, change: Change, caller: Caller)
    | Unlink(path: Path, caller: Caller)

  predicate Possible(e: Event) {
    e.Make? || e.Unlink? ==> e.path != []
  }

  function Step(fs: Fs, e: Event): Fs
    requires Possible(e)
  {
    match e
    case Find(p, c) => Lookup(fs, p, c).0
    case Make(p, dir, mode, c) => Create(fs, p, dir, mode, c).0
    case SetPerm(p, ch, c) => ChangePermissions(fs, p, ch, c).0
    case Unlink(p, c) => Remove(fs, p, c).0
  }

  ghost predicate Run(fs: Fs, events: seq<Event>, fs': Fs)
    decreases |events|
  {
    if events == [] then fs' == fs
    else Possible(events[0]) && Run(Step(fs, events[0]), events[1..], fs')
  }

  const ALL := Bits(true, true, true)
  const NOBODY := Bits(false, false, false)

  /** The root directory is open to everybody when the file system is first mounted. */
  function Initial(c: Caller): Fs {
    Fs(map[[] := Inode(true, Permissions(c.uid, c.gid, Mode(ALL, ALL, ALL, false, false, false)), [], [], 0)], map[], 0)
  }

  // ---------------------------------------------------------------------------------------------
  // What the cached lists mean
  // ---------------------------------------------------------------------------------------------

  /** The walk along the path: the restrictions recorded with its first component when that was created, and the
    current permissions of every ancestor from there on. */
  ghost predicate Passes(m: Tree, p: Path, c: Caller)
    decreases |p|
  {
    if |p| <= 1 then p in m && Accepts(m[p].inherited, c)
    else Parent(p) in m && Passes(m, Parent(p), c) && Admits(m[Parent(p)].perm, c)
  }

  ghost predicate Faithful(m: Tree, p: Path)
    requires p in m
  {
    forall c :: Accepts(m[p].inherited, c) <==> Passes(m, p, c)
  }

  /** The list for a directory's children holds its own entries, short of those its ancestors enforce already. */
  ghost predicate Kept(i: Inode) {
    i.dir ==> Distinct(i.children) && forall e :: e in i.children <==> e in Entries(i.perm) && e !in i.inherited
  }

  ghost predicate TreeOk(m: Tree) {
    && [] in m && m[[]].dir && m[[]].inherited == []
    && (forall p :: p in m && p != [] ==> Parent(p) in m && m[Parent(p)].dir)
    && (forall p :: p in m ==> Kept(m[p]))
  }

  ghost predicate StampsOk(fs: Fs) {
    && (forall p :: p in fs.stamps ==> p in fs.inodes && fs.stamps[p] <= fs.inodes[p].verified)
    && (forall p :: p in fs.inodes ==> fs.inodes[p].verified <= fs.version)
  }

  ghost predicate CacheOk(fs: Fs) {
    forall p :: p in fs.inodes && Fresh(fs, p) ==> Faithful(fs.inodes, p)
  }

  ghost predicate Inv(fs: Fs) {
    TreeOk(fs.inodes) && StampsOk(fs) && CacheOk(fs)
  }

  // ---------------------------------------------------------------------------------------------
  // One inode
  // ---------------------------------------------------------------------------------------------

  lemma {:induction false} RecomputedKept(i: Inode)
    ensures Kept(Recomputed(i))
    ensures Recomputed(i) == i.(children := Recomputed(i).children)
  {
    EntriesDistinct(i.perm);
    WithoutElements(Entries(i.perm), i.inherited);
    DiffersExactly(i.children, Own(i));
  }

  /** A dropped duplicate is still enforced: what a child inherits is what its parent inherited and its parent's
    bits. */
  lemma {:induction false} ChildAccepts(i: Inode, c: Caller)
    requires i.dir && Kept(i)
    ensures Accepts(i.inherited + i.children, c) <==> Accepts(i.inherited, c) && Admits(i.perm, c)
  {
    var all := i.inherited + i.children;
    assert forall e :: e in all <==> e in i.inherited || e in i.children;
    assert forall e :: e in Entries(i.perm) ==> e in all;
  }

  lemma {:induction false} InheritKeeps(i: Inode, d: Inode)
    ensures var j := Inherit(i, d);
      && Kept(j) && j.dir == i.dir && j.perm == i.perm && j.verified == d.verified
      && j.inherited == d.inherited + d.children
  {
    RecomputedKept(i.(inherited := d.inherited + d.children, verified := d.verified));
  }

  // ---------------------------------------------------------------------------------------------
  // Lookup
  // ---------------------------------------------------------------------------------------------

  /** Same inodes with the same permissions, and the same lists on the first level. */
  ghost predicate SameWalk(m: Tree, m': Tree) {
    && m'.Keys == m.Keys
    && (forall p :: p in m ==> m'[p].perm == m[p].perm && m'[p].dir == m[p].dir)
    && (forall p :: p in m && |p| <= 1 ==> m'[p].inherited == m[p].inherited)
  }

  lemma {:induction false} SameWalkPasses(m: Tree, m': Tree, p: Path, c: Caller)
    requires SameWalk(m, m')
    ensures Passes(m', p, c) <==> Passes(m, p, c)
    decreases |p|
  {
    if |p| > 1 { SameWalkPasses(m, m', Parent(p), c); }
  }

  /** An inode that inherits from a parent with a faithful list has a faithful list. */
  lemma {:induction false} InheritFaithful(m: Tree, p: Path)
    requires p in m && p != [] && Parent(p) in m && m[Parent(p)].dir && Kept(m[Parent(p)])
    requires |p| > 1 ==> Faithful(m, Parent(p))
    requires m[p].inherited == m[Parent(p)].inherited + m[Parent(p)].children
    ensures Faithful(m, p)
  {
    if |p| > 1 {
      forall c ensures Accepts(m[p].inherited, c) <==> Passes(m, p, c) {
        ChildAccepts(m[Parent(p)], c);
      }
    }
  }

  function Refreshed(fs: Fs, p: Path): Fs
    requires p in fs.inodes && p != [] && Parent(p) in fs.inodes
  {
    fs.(inodes := fs.inodes[p := Inherit(fs.inodes[p], fs.inodes[Parent(p)])])
  }

  lemma {:induction false} RefreshKeepsShape(fs: Fs, p: Path)
    requires TreeOk(fs.inodes) && StampsOk(fs)
    requires p in fs.inodes && |p| > 1 && Fresh(fs, Parent(p)) && !Fresh(fs, p)
    ensures
      var fs' := Refreshed(fs, p);
      && TreeOk(fs'.inodes) && StampsOk(fs') && SameWalk(fs.inodes, fs'.inodes) && Fresh(fs', p)
      && fs'.inodes[p].inherited == fs'.inodes[Parent(p)].inherited + fs'.inodes[Parent(p)].children
  {
    InheritKeeps(fs.inodes[p], fs.inodes[Parent(p)]);
    assert Required(fs.stamps, p) == Required(fs.stamps, Parent(p));
  }

  lemma {:induction false} SameWalkFaithful(m: Tree, m': Tree, p: Path)
    requires SameWalk(m, m') && p in m && m'[p].inherited == m[p].inherited && Faithful(m, p)
    ensures Faithful(m', p)
  {
    forall c ensures Accepts(m'[p].inherited, c) <==> Passes(m', p, c) {
      SameWalkPasses(m, m', p, c);
    }
  }

  lemma {:induction false} RefreshKeepsInv(fs: Fs, p: Path)
    requires Inv(fs) && p in fs.inodes && |p| > 1 && Fresh(fs, Parent(p)) && !Fresh(fs, p)
    ensures Inv(Refreshed(fs, p)) && SameWalk(fs.inodes, Refreshed(fs, p).inodes) && Fresh(Refreshed(fs, p), p)
  {
    var fs' := Refreshed(fs, p);
    var m, m' := fs.inodes, fs'.inodes;
    RefreshKeepsShape(fs, p);
    forall q | q in m' && Fresh(fs', q) ensures Faithful(m', q) {
      if q != p {
        SameWalkFaithful(m, m', q);
      } else {
        SameWalkFaithful(m, m', Parent(p));
        InheritFaithful(m', p);
      }
    }
  }

  /** A first-level inode never goes stale, and neither does the root. */
  lemma {:induction false} RootIsFresh(fs: Fs, p: Path)
    requires Inv(fs) && p in fs.inodes && |p| <= 1
    ensures Fresh(fs, p)
  {}

  /** Refreshing goes up the path only. */
  lemma {:induction false} LookupLeavesDeeper(fs: Fs, p: Path, c: Caller, q: Path)
    requires q in fs.inodes && |q| > |p|
    ensures Lookup(fs, p, c).0.inodes[q] == fs.inodes[q]
    decreases |p|
  {
    if p in fs.inodes && p != [] && !Fresh(fs, p) {
      LookupLeavesDeeper(fs, Parent(p), c, q);
    }
  }

  /** Looking up an inode refreshes its list, changes nobody's permissions and answers as the walk does. */
  lemma {:induction false} LookupKeepsInv(fs: Fs, p: Path, c: Caller)
    requires Inv(fs) && p in fs.inodes
    ensures
      var (fs', status) := Lookup(fs, p, c);
      && Inv(fs') && SameWalk(fs.inodes, fs'.inodes) && fs'.stamps == fs.stamps && fs'.version == fs.version
      && Fresh(fs', p)
      && status == if Passes(fs.inodes, p, c) then OK else EACCES
    decreases |p|
  {
    var (fs', status) := Lookup(fs, p, c);
    if |p| <= 1 { RootIsFresh(fs, p); }
    if Fresh(fs, p) {
      assert Faithful(fs.inodes, p);
    } else {
      LookupKeepsInv(fs, Parent(p), c);
      var mid := Lookup(fs, Parent(p), c).0;
      assert LookupParent(fs, p, c).0 == mid;
      LookupLeavesDeeper(fs, Parent(p), c, p);
      RefreshKeepsInv(mid, p);
      SameWalkTransitive(fs.inodes, mid.inodes, fs'.inodes);
      assert Faithful(fs'.inodes, p);
      SameWalkPasses(fs.inodes, fs'.inodes, p, c);
    }
  }

  lemma {:induction false} LookupParentKeepsInv(fs: Fs, p: Path, c: Caller)
    requires Inv(fs) && p != []
    ensures
      var (fs', status) := LookupParent(fs, p, c);
      && Inv(fs') && SameWalk(fs.inodes, fs'.inodes) && fs'.stamps == fs.stamps && fs'.version == fs.version
      && (status == OK ==> fs'.inodes[Parent(p)].dir && Fresh(fs', Parent(p)))
  {
    if Parent(p) in fs.inodes { LookupKeepsInv(fs, Parent(p), c); }
  }

  lemma {:induction false} SameWalkTransitive(m1: Tree, m2: Tree, m3: Tree)
    requires SameWalk(m1, m2) && SameWalk(m2, m3)
    ensures SameWalk(m1, m3)
  {}

  // ---------------------------------------------------------------------------------------------
  // Creation and removal
  // ---------------------------------------------------------------------------------------------

  /** Nothing on the way to q depends on the entry for p, which is not above q. */
  lemma {:induction false} PassesElsewhere(m: Tree, p: Path, i: Inode, q: Path, c: Caller)
    requires TreeOk(m) && q in m && p != q && p !in m
    ensures Passes(m[p := i], q, c) <==> Passes(m, q, c)
    decreases |q|
  {
    if |q| > 1 { PassesElsewhere(m, p, i, Parent(q), c); }
  }

  lemma {:induction false} RequiredSame(s: map<Path, nat>, s': map<Path, nat>, q: Path)
    requires forall k :: 1 <= k <= |q| ==> Stamp(s', q[..k]) == Stamp(s, q[..k])
    requires q != []
    ensures Required(s', q) == Required(s, q)
    decreases |q|
  {
    assert q[..|q|] == q;
    if |q| > 1 {
      forall k | 1 <= k <= |q| - 1 ensures Stamp(s', Parent(q)[..k]) == Stamp(s, Parent(q)[..k]) {
        assert Parent(q)[..k] == q[..k];
      }
      RequiredSame(s, s', Parent(q));
    }
  }

  lemma {:induction false} InsertKeepsInv(fs: Fs, p: Path, i: Inode)
    requires Inv(fs) && p != [] && p !in fs.inodes && Parent(p) in fs.inodes && fs.inodes[Parent(p)].dir
      && Fresh(fs, Parent(p))
    ensures Inv(Insert(fs, p, i))
  {
    var m := fs.inodes;
    var m' := m[p := Inherit(i, m[Parent(p)])];
    var fs' := fs.(inodes := m');
    InheritKeeps(i, m[Parent(p)]);
    assert TreeOk(m');
    assert StampsOk(fs');
    forall q | q in m ensures Faithful(m, q) ==> Faithful(m', q) {
      forall c { PassesElsewhere(m, p, m'[p], q, c); }
    }
    forall q | q in m' && Fresh(fs', q) ensures Faithful(m', q) {
      if q != p {
        assert Fresh(fs, q);
      } else {
        InheritFaithful(m', p);
      }
    }
  }

  lemma {:induction false} CreateKeepsInv(fs: Fs, p: Path, dir: bool, mode: Mode, c: Caller)
    requires Inv(fs) && p != []
    ensures Inv(Create(fs, p, dir, mode, c).0)
  {
    if p in fs.inodes {
      LookupKeepsInv(fs, p, c);
    } else {
      LookupParentKeepsInv(fs, p, c);
      var (mid, status) := LookupParent(fs, p, c);
      if status == OK {
        InsertKeepsInv(mid, p, Inode(dir, Permissions(c.uid, c.gid, mode), [], [], 0));
      }
    }
  }

  /** Every prefix of an existing path exists. */
  lemma {:induction false} PrefixesExist(m: Tree, q: Path, k: nat)
    requires TreeOk(m) && q in m && k <= |q|
    ensures q[..k] in m && (k < |q| ==> m[q[..k]].dir)
    decreases |q|
  {
    if k == |q| {
      assert q[..k] == q;
    } else {
      assert Parent(q)[..k] == q[..k];
      PrefixesExist(m, Parent(q), k);
    }
  }

  /** Without children there is nothing below. */
  lemma {:induction false} NothingBelow(m: Tree, p: Path, q: Path, k: nat)
    requires TreeOk(m) && !HasChildren(m, p) && q in m && q != p && k <= |q|
    ensures q[..k] != p
  {
    assert q[..|q|] == q;
    if k < |q| {
      PrefixesExist(m, q, k + 1);
      assert Parent(q[..k + 1]) == q[..k];
    }
  }

  lemma {:induction false} PassesWithout(m: Tree, p: Path, q: Path, c: Caller)
    requires TreeOk(m) && q in m && p != q && !HasChildren(m, p)
    ensures Passes(m - {p}, q, c) <==> Passes(m, q, c)
    decreases |q|
  {
    if |q| > 1 {
      assert Parent(q) != p;
      PassesWithout(m, p, Parent(q), c);
    }
  }

  lemma {:induction false} DropKeepsInv(fs: Fs, p: Path)
    requires Inv(fs) && p != [] && p in fs.inodes && !HasChildren(fs.inodes, p)
    ensures Inv(Drop(fs, p))
  {
    var m, fs' := fs.inodes, Drop(fs, p);
    var m' := fs'.inodes;
    assert TreeOk(m');
    forall q | q in m' && Fresh(fs', q) ensures Faithful(m', q) {
      if q == [] {
        assert Fresh(fs, q);
      } else {
        forall k | 1 <= k <= |q| ensures Stamp(fs'.stamps, q[..k]) == Stamp(fs.stamps, q[..k]) {
          NothingBelow(m, p, q, k);
        }
        RequiredSame(fs.stamps, fs'.stamps, q);
      }
      assert Faithful(m, q);
      forall c { PassesWithout(m, p, q, c); }
    }
  }

  lemma {:induction false} ChildrenAreInDirectories(m: Tree, p: Path)
    requires TreeOk(m) && HasChildren(m, p)
    ensures p in m && m[p].dir
  {}

  lemma {:induction false} RemoveFoundKeepsInv(fs: Fs, p: Path, c: Caller)
    requires Inv(fs) && p != [] && p in fs.inodes && !HasChildren(fs.inodes, p)
    ensures Inv(RemoveFound(fs, p, c).0)
  {
    LookupParentKeepsInv(fs, p, c);
    DropKeepsInv(LookupParent(fs, p, c).0, p);
  }

  lemma {:induction false} RemoveKeepsInv(fs: Fs, p: Path, c: Caller)
    requires Inv(fs) && p != []
    ensures Inv(Remove(fs, p, c).0)
  {
    if p in fs.inodes {
      LookupKeepsInv(fs, p, c);
      var fs1 := Lookup(fs, p, c).0;
      if HasChildren(fs1.inodes, p) {
        ChildrenAreInDirectories(fs1.inodes, p);
      } else {
        RemoveFoundKeepsInv(fs1, p, c);
      }
    }
  }

  // ---------------------------------------------------------------------------------------------
  // Permission changes
  // ---------------------------------------------------------------------------------------------

  /** p is a directory on the way to q whose permissions count for q. */
  ghost predicate Above(p: Path, q: Path) {
    p != [] && |p| < |q| && q[..|p|] == p
  }

  lemma {:induction false} PassesNotBelow(m: Tree, p: Path, i: Inode, q: Path, c: Caller)
    requires p in m && i.inherited == m[p].inherited && !Above(p, q)
    ensures Passes(m[p := i], q, c) <==> Passes(m, q, c)
    decreases |q|
  {
    if |q| > 1 {
      assert forall k :: 0 <= k < |q| ==> Parent(q)[..k] == q[..k];
      PassesNotBelow(m, p, i, Parent(q), c);
    }
  }

  lemma {:induction false} RequiredBelow(stamps: map<Path, nat>, p: Path, q: Path)
    requires p != [] && |p| <= |q| && q[..|p|] == p
    ensures Required(stamps, q) >= Stamp(stamps, p)
    decreases |q|
  {
    if |p| < |q| {
      assert Parent(q)[..|p|] == q[..|p|];
      RequiredBelow(stamps, p, Parent(q));
    } else {
      assert q == p;
    }
  }

  /** A logged change makes everything below stale. */
  lemma {:induction false} LoggedKeepsCache(fs: Fs, p: Path, i: Inode, q: Path)
    requires Inv(fs) && p in fs.inodes && Fresh(fs, p) && i.inherited == fs.inodes[p].inherited
      && i.verified == fs.version + 1
    requires
      var fs' := Fs(fs.inodes[p := i], fs.stamps[p := fs.version + 1], fs.version + 1);
      q in fs'.inodes && Fresh(fs', q)
    ensures Faithful(fs.inodes[p := i], q)
  {
    var v := fs.version + 1;
    var stamps' := fs.stamps[p := v];
    if q != p {
      if Above(p, q) { RequiredBelow(stamps', p, q); }
      assert !Above(p, q);
      if q != [] {
        forall k | 1 <= k <= |q| ensures Stamp(stamps', q[..k]) == Stamp(fs.stamps, q[..k]) {
          assert q[..|q|] == q;
        }
        RequiredSame(fs.stamps, stamps', q);
      }
    }
    assert Faithful(fs.inodes, q);
    forall c { PassesNotBelow(fs.inodes, p, i, q, c); }
  }

  /** Precisely what lies below becomes stale. */
  lemma {:induction false} LoggedMakesStale(fs: Fs, p: Path, i: Inode, q: Path)
    requires Inv(fs) && p in fs.inodes && q in fs.inodes && q != p
    ensures
      var fs' := Fs(fs.inodes[p := i], fs.stamps[p := fs.version + 1], fs.version + 1);
      Fresh(fs', q) <==> Fresh(fs, q) && !Above(p, q)
  {
    var stamps' := fs.stamps[p := fs.version + 1];
    if Above(p, q) {
      RequiredBelow(stamps', p, q);
    } else if q != [] {
      forall k | 1 <= k <= |q| ensures Stamp(stamps', q[..k]) == Stamp(fs.stamps, q[..k]) {
        assert q[..|q|] == q;
      }
      RequiredSame(fs.stamps, stamps', q);
    }
  }

  /** Different permissions that lead to the same list for the children let the same callers through to them. */
  lemma {:induction false} UnloggedPasses(m: Tree, p: Path, i: Inode, q: Path, c: Caller)
    requires p in m && m[p].dir && i.dir && Kept(m[p]) && Kept(i) && Faithful(m, p)
    requires i.inherited == m[p].inherited && i.children == m[p].children
    ensures Passes(m[p := i], q, c) <==> Passes(m, q, c)
    decreases |q|
  {
    if |q| > 1 {
      UnloggedPasses(m, p, i, Parent(q), c);
      ChildAccepts(m[p], c);
      ChildAccepts(i, c);
    }
  }

  lemma {:induction false} UnloggedKeepsCache(fs: Fs, p: Path, i: Inode, q: Path)
    requires Inv(fs) && p in fs.inodes && Fresh(fs, p) && Kept(i)
    requires i == fs.inodes[p].(perm := i.perm) && q in fs.inodes && Fresh(fs, q)
    ensures Faithful(fs.inodes[p := i], q)
  {
    var m := fs.inodes;
    assert Faithful(m, q) && Faithful(m, p);
    if Above(p, q) { PrefixesExist(m, q, |p|); }
    forall c ensures Passes(m[p := i], q, c) <==> Passes(m, q, c) {
      if Above(p, q) {
        UnloggedPasses(m, p, i, q, c);
      } else {
        PassesNotBelow(m, p, i, q, c);
      }
    }
  }

  lemma {:induction false} ReplaceKeepsTree(m: Tree, p: Path, i: Inode)
    requires TreeOk(m) && p in m && i.dir == m[p].dir && i.inherited == m[p].inherited && Kept(i)
    ensures TreeOk(m[p := i])
  {}

  lemma {:induction false} LoggedKeepsInv(fs: Fs, p: Path, i: Inode)
    requires Inv(fs) && p in fs.inodes && Fresh(fs, p) && Kept(i)
    requires i.dir == fs.inodes[p].dir && i.inherited == fs.inodes[p].inherited && i.verified == fs.version + 1
    ensures Inv(Fs(fs.inodes[p := i], fs.stamps[p := fs.version + 1], fs.version + 1))
  {
    var fs' := Fs(fs.inodes[p := i], fs.stamps[p := fs.version + 1], fs.version + 1);
    ReplaceKeepsTree(fs.inodes, p, i);
    forall q | q in fs'.inodes && Fresh(fs', q) ensures Faithful(fs'.inodes, q) {
      LoggedKeepsCache(fs, p, i, q);
    }
  }

  lemma {:induction false} UnloggedKeepsInv(fs: Fs, p: Path, i: Inode)
    requires Inv(fs) && p in fs.inodes && Fresh(fs, p) && Kept(i) && i == fs.inodes[p].(perm := i.perm)
    ensures Inv(fs.(inodes := fs.inodes[p := i]))
  {
    var fs' := fs.(inodes := fs.inodes[p := i]);
    ReplaceKeepsTree(fs.inodes, p, i);
    forall q | q in fs'.inodes && Fresh(fs', q) ensures Faithful(fs'.inodes, q) {
      assert Fresh(fs, q);
      UnloggedKeepsCache(fs, p, i, q);
    }
  }

  /** The inode that a permission change leaves behind is consistent, logged or not. */
  lemma {:induction false} ChangedKept(i: Inode, perm: Permissions)
    ensures Kept(Recomputed(i.(perm := perm)))
    ensures Recomputed(i.(perm := perm)).dir == i.dir && Recomputed(i.(perm := perm)).inherited == i.inherited
    ensures i.dir && !Differs(i.children, Own(i.(perm := perm))) ==> Kept(i.(perm := perm))
  {
    RecomputedKept(i.(perm := perm));
  }

  lemma {:induction false} SetPermissionsKeepsInv(fs: Fs, p: Path, perm: Permissions)
    requires Inv(fs) && p in fs.inodes && Fresh(fs, p)
    ensures Inv(SetPermissions(fs, p, perm))
  {
    var i, v := fs.inodes[p].(perm := perm), fs.version + 1;
    ChangedKept(fs.inodes[p], perm);
    if i.dir && Differs(i.children, Own(i)) {
      var j := Recomputed(i).(verified := v);
      assert SetPermissions(fs, p, perm) == Fs(fs.inodes[p := j], fs.stamps[p := v], v);
      LoggedKeepsInv(fs, p, j);
    } else {
      assert SetPermissions(fs, p, perm) == fs.(inodes := fs.inodes[p := i]);
      UnloggedKeepsInv(fs, p, i);
    }
  }

  lemma {:induction false} ChangeKeepsInv(fs: Fs, p: Path, ch: Change, c: Caller)
    requires Inv(fs)
    ensures Inv(ChangePermissions(fs, p, ch, c).0)
  {
    if p in fs.inodes {
      LookupKeepsInv(fs, p, c);
      var fs1 := Lookup(fs, p, c).0;
      SetPermissionsKeepsInv(fs1, p, Changed(fs1.inodes[p].perm, fs1.inodes[p].dir, ch, c));
    }
  }

  // ---------------------------------------------------------------------------------------------
  // Whole runs
  // ---------------------------------------------------------------------------------------------

  lemma {:induction false} StepKeepsInv(fs: Fs, e: Event)
    requires Inv(fs) && Possible(e)
    ensures Inv(Step(fs, e))
  {
    match e
    case Find(p, c) => if p in fs.inodes { LookupKeepsInv(fs, p, c); }
    case Make(p, dir, mode, c) => CreateKeepsInv(fs, p, dir, mode, c);
    case SetPerm(p, ch, c) => ChangeKeepsInv(fs, p, ch, c);
    case Unlink(p, c) => RemoveKeepsInv(fs, p, c);
  }

  lemma {:induction false} RunKeepsInv(fs: Fs, events: seq<Event>, fs': Fs)
    requires Inv(fs) && Run(fs, events, fs')
    ensures Inv(fs')
    decreases |events|
  {
    if events != [] {
      StepKeepsInv(fs, events[0]);
      RunKeepsInv(Step(fs, events[0]), events[1..], fs');
    }
  }

  lemma {:induction false} InitialInv(c: Caller)
    ensures Inv(Initial(c)) && RootSeen(Initial(c).inodes)
  {
    var m := Initial(c).inodes;
    assert Entries(m[[]].perm) == [];
    assert Faithful(m, []);
  }

  /** Every directory on the path, from the first one below the root, lets the caller through. */
  ghost predicate BelowRootAdmits(m: Tree, p: Path, c: Caller) {
    forall k :: 1 <= k < |p| ==> p[..k] in m && Admits(m[p[..k]].perm, c)
  }

  lemma {:induction false} PassesExactly(m: Tree, p: Path, c: Caller)
    requires TreeOk(m) && p in m && p != []
    ensures p[..1] in m
    ensures Passes(m, p, c) <==> Accepts(m[p[..1]].inherited, c) && BelowRootAdmits(m, p, c)
    decreases |p|
  {
    PrefixesExist(m, p, 1);
    if |p| == 1 {
      assert p[..1] == p;
    } else {
      var d := Parent(p);
      PassesExactly(m, d, c);
      assert d[..1] == p[..1];
      assert forall k :: 1 <= k < |d| ==> d[..k] == p[..k];
      assert p[..|d|] == d;
    }
  }

  /** In every reachable state, looking up an existing inode succeeds exactly for the callers whom the restrictions
    recorded with the first path component and the current permissions of all deeper ancestors let through. */
  lemma {:induction false} LookupExact(c0: Caller, events: seq<Event>, fs: Fs, p: Path, c: Caller)
    requires Run(Initial(c0), events, fs) && p in fs.inodes && p != []
    ensures p[..1] in fs.inodes && Lookup(fs, p, c).1 in {OK, EACCES}
    ensures Lookup(fs, p, c).1 == OK <==> Accepts(fs.inodes[p[..1]].inherited, c) && BelowRootAdmits(fs.inodes, p, c)
  {
    InitialInv(c0);
    RunKeepsInv(Initial(c0), events, fs);
    LookupKeepsInv(fs, p, c);
    PassesExactly(fs.inodes, p, c);
  }

  // ---------------------------------------------------------------------------------------------
  // The root directory
  // ---------------------------------------------------------------------------------------------

  /** The first level has recorded what the root's permissions are now. */
  ghost predicate RootSeen(m: Tree) {
    [] in m && forall p :: p in m && |p| == 1 ==> forall c :: Accepts(m[p].inherited, c) <==> Admits(m[[]].perm, c)
  }

  predicate LeavesRootAlone(e: Event) {
    e.SetPerm? ==> e.path != []
  }

  lemma {:induction false} SameWalkRootSeen(m: Tree, m': Tree)
    requires SameWalk(m, m') && RootSeen(m)
    ensures RootSeen(m')
  {
    forall p | p in m' && |p| == 1 ensures forall c :: Accepts(m'[p].inherited, c) <==> Admits(m'[[]].perm, c) {
      assert m'[p].inherited == m[p].inherited;
    }
  }

  lemma {:induction false} InsertRootSeen(fs: Fs, p: Path, i: Inode)
    requires Inv(fs) && RootSeen(fs.inodes) && p != [] && Parent(p) in fs.inodes && fs.inodes[Parent(p)].dir
    ensures RootSeen(Insert(fs, p, i).inodes)
  {
    InheritKeeps(i, fs.inodes[Parent(p)]);
    if |p| == 1 {
      assert Parent(p) == [];
      forall c { ChildAccepts(fs.inodes[[]], c); }
    }
  }

  lemma {:induction false} SetPermissionsRootSeen(fs: Fs, p: Path, perm: Permissions)
    requires RootSeen(fs.inodes) && p in fs.inodes && p != []
    ensures RootSeen(SetPermissions(fs, p, perm).inodes)
  {
    RecomputedKept(fs.inodes[p].(perm := perm));
    var m' := SetPermissions(fs, p, perm).inodes;
    assert m'[p].inherited == fs.inodes[p].inherited;
  }

  lemma {:induction false} CreateRootSeen(fs: Fs, p: Path, dir: bool, mode: Mode, c: Caller)
    requires Inv(fs) && RootSeen(fs.inodes) && p != []
    ensures RootSeen(Create(fs, p, dir, mode, c).0.inodes)
  {
    if p in fs.inodes {
      LookupKeepsInv(fs, p, c);
      SameWalkRootSeen(fs.inodes, Lookup(fs, p, c).0.inodes);
    } else {
      LookupParentKeepsInv(fs, p, c);
      var (mid, status) := LookupParent(fs, p, c);
      SameWalkRootSeen(fs.inodes, mid.inodes);
      if status == OK {
        InsertRootSeen(mid, p, Inode(dir, Permissions(c.uid, c.gid, mode), [], [], 0));
      }
    }
  }

  lemma {:induction false} DropRootSeen(fs: Fs, p: Path)
    requires RootSeen(fs.inodes) && p != []
    ensures RootSeen(Drop(fs, p).inodes)
  {}

  lemma {:induction false} RemoveFoundRootSeen(fs: Fs, p: Path, c: Caller)
    requires Inv(fs) && RootSeen(fs.inodes) && p != [] && p in fs.inodes
    ensures RootSeen(RemoveFound(fs, p, c).0.inodes)
  {
    LookupParentKeepsInv(fs, p, c);
    var mid := LookupParent(fs, p, c).0;
    SameWalkRootSeen(fs.inodes, mid.inodes);
    DropRootSeen(mid, p);
  }

  lemma {:induction false} RemoveRootSeen(fs: Fs, p: Path, c: Caller)
    requires Inv(fs) && RootSeen(fs.inodes) && p != []
    ensures RootSeen(Remove(fs, p, c).0.inodes)
  {
    if p in fs.inodes {
      LookupKeepsInv(fs, p, c);
      var fs1 := Lookup(fs, p, c).0;
      SameWalkRootSeen(fs.inodes, fs1.inodes);
      RemoveFoundRootSeen(fs1, p, c);
    }
  }

  lemma {:induction false} ChangeRootSeen(fs: Fs, p: Path, ch: Change, c: Caller)
    requires Inv(fs) && RootSeen(fs.inodes) && p != []
    ensures RootSeen(ChangePermissions(fs, p, ch, c).0.inodes)
  {
    if p in fs.inodes {
      LookupKeepsInv(fs, p, c);
      var fs1 := Lookup(fs, p, c).0;
      SameWalkRootSeen(fs.inodes, fs1.inodes);
      SetPermissionsRootSeen(fs1, p, Changed(fs1.inodes[p].perm, fs1.inodes[p].dir, ch, c));
    }
  }

  lemma {:induction false} RunKeepsRootSeen(fs: Fs, events: seq<Event>, fs': Fs)
    requires Inv(fs) && RootSeen(fs.inodes) && Run(fs, events, fs')
    requires forall i :: 0 <= i < |events| ==> LeavesRootAlone(events[i])
    ensures Inv(fs') && RootSeen(fs'.inodes)
    decreases |events|
  {
    if events != [] {
      var e := events[0];
      StepKeepsInv(fs, e);
      match e {
        case Find(p, c) =>
          if p in fs.inodes {
            LookupKeepsInv(fs, p, c);
            SameWalkRootSeen(fs.inodes, Step(fs, e).inodes);
          }
        case Make(p, dir, mode, c) => CreateRootSeen(fs, p, dir, mode, c);
        case SetPerm(p, ch, c) => ChangeRootSeen(fs, p, ch, c);
        case Unlink(p, c) => RemoveRootSeen(fs, p, c);
      }
      RunKeepsRootSeen(Step(fs, e), events[1..], fs');
    }
  }

  // ---------------------------------------------------------------------------------------------
  // The component-wise walk
  // ---------------------------------------------------------------------------------------------

  /** Path resolution: every directory on the path grants the caller search permission. */
  ghost predicate Walk(m: Tree, p: Path, c: Caller) {
    forall k :: 0 <= k < |p| ==> p[..k] in m && Grants(m[p[..k]].perm, c)
  }

  /** What the entry lists make of the walk. */
  ghost predicate WalkAdmits(m: Tree, p: Path, c: Caller) {
    forall k :: 0 <= k < |p| ==> p[..k] in m && Admits(m[p[..k]].perm, c)
  }

  lemma {:induction false} LookupWalks(fs: Fs, p: Path, c: Caller)
    requires Inv(fs) && RootSeen(fs.inodes) && p in fs.inodes
    ensures Lookup(fs, p, c).1 == if WalkAdmits(fs.inodes, p, c) then OK else EACCES
  {
    LookupKeepsInv(fs, p, c);
    if p != [] {
      PassesExactly(fs.inodes, p, c);
      assert p[..0] == [];
    }
  }

  /** Unless the permissions of the root were changed, lookup admits exactly the callers whom every ancestor directory
    either grants search, or grants to nobody while they are neither its owner nor in its group. */
  lemma {:induction false} LookupAnswersWalk(c0: Caller, events: seq<Event>, fs: Fs, p: Path, c: Caller)
    requires Run(Initial(c0), events, fs) && p in fs.inodes
    requires forall i :: 0 <= i < |events| ==> LeavesRootAlone(events[i])
    ensures forall k :: 0 <= k < |p| ==> p[..k] in fs.inodes
    ensures Lookup(fs, p, c).1 in {OK, EACCES}
    ensures Lookup(fs, p, c).1 == OK <==>
      forall k :: 0 <= k < |p| ==>
        var d := fs.inodes[p[..k]].perm;
        Grants(d, c) || (!Searchable(d) && c.uid != d.uid && c.gid != d.gid)
    ensures (forall k :: 0 <= k < |p| ==> Searchable(fs.inodes[p[..k]].perm)) ==>
      (Lookup(fs, p, c).1 == OK <==> Walk(fs.inodes, p, c))
  {
    InitialInv(c0);
    RunKeepsRootSeen(Initial(c0), events, fs);
    LookupWalks(fs, p, c);
    forall k | 0 <= k < |p| ensures p[..k] in fs.inodes {
      PrefixesExist(fs.inodes, p, k);
    }
    forall k | 0 <= k < |p| {
      AdmitsExactly(fs.inodes[p[..k]].perm, c);
    }
  }

  /** Lookup follows the walk for this inode and caller. */
  ghost predicate Right(fs: Fs, p: Path, c: Caller) {
    Lookup(fs, p, c).1 == OK <==> WalkAdmits(fs.inodes, p, c)
  }

  lemma {:induction false} RootChangeShape(fs: Fs, perm: Permissions)
    requires Inv(fs)
    ensures
      var fs' := SetPermissions(fs, [], perm);
      && Inv(fs') && fs'.inodes.Keys == fs.inodes.Keys && fs'.inodes[[]].perm == perm
      && forall q :: q in fs.inodes && q != [] ==> fs'.inodes[q] == fs.inodes[q]
  {
    RootIsFresh(fs, []);
    SetPermissionsKeepsInv(fs, [], perm);
    RecomputedKept(fs.inodes[[]].(perm := perm));
  }

  lemma {:induction false} RootChangeHarmless(fs: Fs, perm: Permissions, p: Path, c: Caller)
    requires Inv(fs) && RootSeen(fs.inodes) && p in fs.inodes
    requires fs.inodes.Keys == {[]} || forall c :: Admits(perm, c) <==> Admits(fs.inodes[[]].perm, c)
    ensures Right(SetPermissions(fs, [], perm), p, c)
  {
    RootChangeShape(fs, perm);
    var fs' := SetPermissions(fs, [], perm);
    assert RootSeen(fs'.inodes);
    LookupWalks(fs', p, c);
  }

  lemma {:induction false} RootChangeFelt(fs: Fs, perm: Permissions, p: Path, c: Caller)
    requires Inv(fs) && RootSeen(fs.inodes) && p in fs.inodes && |p| == 1
    requires Admits(perm, c) != Admits(fs.inodes[[]].perm, c)
    ensures !Right(SetPermissions(fs, [], perm), p, c)
  {
    RootChangeShape(fs, perm);
    var fs' := SetPermissions(fs, [], perm);
    RootIsFresh(fs', p);
    assert p[..0] == [];
  }

  /** Changing the permissions of the root leaves lookup right for all inodes and callers exactly when there is no other
    inode or the new permissions let the same callers through. */
  lemma {:induction false} RootChangeExact(fs: Fs, perm: Permissions)
    requires Inv(fs) && RootSeen(fs.inodes)
    ensures
      (forall p, c :: p in fs.inodes ==> Right(SetPermissions(fs, [], perm), p, c))
      <==> (fs.inodes.Keys == {[]} || forall c :: Admits(perm, c) <==> Admits(fs.inodes[[]].perm, c))
  {
    var m := fs.inodes;
    if m.Keys == {[]} || forall c :: Admits(perm, c) <==> Admits(m[[]].perm, c) {
      forall p, c | p in m ensures Right(SetPermissions(fs, [], perm), p, c) {
        RootChangeHarmless(fs, perm, p, c);
      }
    } else {
      var p :| p in m && p != [];
      var c :| Admits(perm, c) != Admits(m[[]].perm, c);
      PrefixesExist(m, p, 1);
      RootChangeFelt(fs, perm, p[..1], c);
    }
  }

  /** mkdir /a as the superuser, then chmod 700 /: others still reach /a. */
  lemma {:induction false} RootChangeCounterexample()
    ensures
      var root, other := Caller(0, 0), Caller(1, 1);
      var fs1 := Create(Initial(root), ["a"], true, Mode(ALL, ALL, ALL, false, false, false), root).0;
      var fs2 := ChangePermissions(fs1, [], Chmod(Mode(ALL, NOBODY, NOBODY, false, false, false)), root).0;
      && ["a"] in fs2.inodes && Lookup(fs2, ["a"], other).1 == OK && !Walk(fs2.inodes, ["a"], other)
  {
    var root, other := Caller(0, 0), Caller(1, 1);
    var fs0, a: Path := Initial(root), ["a"];
    InitialInv(root);
    var mode := Mode(ALL, ALL, ALL, false, false, false);
    var fs1 := Create(fs0, a, true, mode, root).0;
    assert Parent(a) == [];
    assert fs1 == Insert(fs0, a, Inode(true, Permissions(0, 0, mode), [], [], 0));
    CreateKeepsInv(fs0, a, true, mode, root);
    CreateRootSeen(fs0, a, true, mode, root);
    var perm := Permissions(0, 0, Mode(ALL, NOBODY, NOBODY, false, false, false));
    AdmitsExactly(perm, other);
    AdmitsExactly(fs1.inodes[[]].perm, other);
    RootChangeFelt(fs1, perm, a, other);
    RootChangeShape(fs1, perm);
    assert a[..0] == [];
  }
}
