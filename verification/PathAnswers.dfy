/** What the operations on the permission tree answer and change, in every reachable state, said by owners, groups and
  mode bits.
 */
module PathAnswers {
  import opened Prelude
  import opened Reachability
  import opened PathPermissions

  /** The same inodes with the same owners, groups, modes and kinds. */
  ghost predicate SamePermissions(m: Tree, m': Tree) {
    m'.Keys == m.Keys && forall p :: p in m ==> m'[p].perm == m[p].perm && m'[p].dir == m[p].dir
  }

  /** The same but for one inode, which may be new or gone. */
  ghost predicate SameElsewhere(m: Tree, m': Tree, p: Path) {
    forall q :: q != p ==>
      (q in m' <==> q in m) && (q in m ==> m'[q].perm == m[q].perm && m'[q].dir == m[q].dir)
  }

  /** The bits of the class a caller belongs to. */
  function ClassOf(p: Permissions, c: Caller): Bits {
    if c.uid == p.uid then p.mode.user else if c.gid == p.gid then p.mode.group else p.mode.other
  }

  /** Search permission as the lists express it. */
  predicate MaySearch(p: Permissions, c: Caller) {
    ClassOf(p, c).x || (!Searchable(p) && c.uid != p.uid && c.gid != p.gid)
  }

  // ---------------------------------------------------------------------------------------------
  // Looking up a parent directory
  // ---------------------------------------------------------------------------------------------

  /** What is answered about a parent directory, given what its own lookup answers. */
  ghost predicate ParentAnswer(m: Tree, d: Path, c: Caller, found: Status, status: Status) {
    if d !in m then status == ENOENT
    else if found != OK then status == EACCES
    else if !m[d].dir then status == ENOTDIR
    else status == OK <==> MaySearch(m[d].perm, c)
  }

  lemma {:induction false} ParentExact(fs: Fs, p: Path, c: Caller)
    requires Inv(fs) && p != []
    ensures
      var (fs', status) := LookupParent(fs, p, c);
      && SameWalk(fs.inodes, fs'.inodes) && Inv(fs')
      && ParentAnswer(fs.inodes, Parent(p), c, Lookup(fs, Parent(p), c).1, status)
      && status in {OK, ENOENT, EACCES, ENOTDIR}
  {
    var d := Parent(p);
    LookupParentKeepsInv(fs, p, c);
    if d in fs.inodes {
      LookupKeepsInv(fs, d, c);
      var (mid, found) := Lookup(fs, d, c);
      if found == OK && mid.inodes[d].dir {
        ListsAccept(fs, mid, d, c);
        ChildAccepts(mid.inodes[d], c);
        ChildrenAccept(mid.inodes[d], c);
        AdmitsExactly(fs.inodes[d].perm, c);
      }
    }
  }

  /** A caller who was let through satisfies the list of the inode as it is afterwards. */
  lemma {:induction false} ListsAccept(fs: Fs, mid: Fs, d: Path, c: Caller)
    requires Inv(fs) && d in fs.inodes && (mid, OK) == Lookup(fs, d, c)
    ensures d in mid.inodes && Accepts(mid.inodes[d].inherited, c)
  {}

  lemma {:induction false} ChildrenAccept(i: Inode, c: Caller)
    requires Accepts(i.inherited, c)
    ensures Accepts(i.inherited + i.children, c) <==> Accepts(i.children, c)
  {
    assert forall e :: e in i.inherited + i.children <==> e in i.inherited || e in i.children;
  }

  /** The answer about a parent directory does not change when lists are refreshed. */
  lemma {:induction false} ParentAgain(fs: Fs, mid: Fs, p: Path, c: Caller)
    requires Inv(fs) && Inv(mid) && SameWalk(fs.inodes, mid.inodes) && p != []
    ensures LookupParent(mid, p, c).1 == LookupParent(fs, p, c).1
  {
    var d := Parent(p);
    ParentExact(fs, p, c);
    ParentExact(mid, p, c);
    if d in fs.inodes {
      LookupKeepsInv(fs, d, c);
      LookupKeepsInv(mid, d, c);
      SameWalkPasses(fs.inodes, mid.inodes, d, c);
    }
  }

  lemma {:induction false} RunReaches(c0: Caller, events: seq<Event>, fs: Fs)
    requires Run(Initial(c0), events, fs)
    ensures Inv(fs)
  {
    InitialInv(c0);
    RunKeepsInv(Initial(c0), events, fs);
  }

  /** lookup_parent in every reachable state: what it answers, and that nobody's permissions change. */
  lemma {:induction false} LookupParentExact(c0: Caller, events: seq<Event>, fs: Fs, p: Path, c: Caller)
    requires Run(Initial(c0), events, fs) && p != []
    ensures
      var (fs', status) := LookupParent(fs, p, c);
      && ParentAnswer(fs.inodes, Parent(p), c, Lookup(fs, Parent(p), c).1, status)
      && status in {OK, ENOENT, EACCES, ENOTDIR} && SamePermissions(fs.inodes, fs'.inodes)
  {
    RunReaches(c0, events, fs);
    ParentExact(fs, p, c);
  }

  // ---------------------------------------------------------------------------------------------
  // chmod and chown
  // ---------------------------------------------------------------------------------------------

  /** Owner, group and every mode bit after a change. */
  predicate AsRequested(before: Permissions, after: Permissions, dir: bool, ch: Change, c: Caller) {
    match ch
    case Chmod(m) =>
      && after.uid == before.uid && after.gid == before.gid
      && after.mode.user == m.user && after.mode.group == m.group && after.mode.other == m.other
      && after.mode.sticky == m.sticky && after.mode.setuid == m.setuid
      && (after.mode.setgid <==> m.setgid && (c.uid == 0 || c.gid == before.gid || dir))
    case Chown(u, g) =>
      && (u.Some? ==> after.uid == u.value) && (u.None? ==> after.uid == before.uid)
      && (g.Some? ==> after.gid == g.value) && (g.None? ==> after.gid == before.gid)
      && after.mode.user == before.mode.user && after.mode.group == before.mode.group
      && after.mode.other == before.mode.other && after.mode.sticky == before.mode.sticky
      && (after.mode.setuid <==> before.mode.setuid && (c.uid == 0 || (u.None? && g.None?)))
      && (after.mode.setgid <==> before.mode.setgid && (c.uid == 0 || (u.None? && g.None?)))
  }

  /** Only the superuser and the owner may change anything, and the owner may name no group but their own. */
  predicate Forbidden(p: Permissions, ch: Change, c: Caller) {
    c.uid != 0 && (c.uid != p.uid || (ch.Chown? && ch.gid.Some? && ch.gid.value != c.gid))
  }

  lemma {:induction false} SetExact(fs: Fs, p: Path, perm: Permissions)
    requires p in fs.inodes
    ensures
      var fs' := SetPermissions(fs, p, perm);
      && p in fs'.inodes && fs'.inodes[p].perm == perm && fs'.inodes[p].dir == fs.inodes[p].dir
      && SameElsewhere(fs.inodes, fs'.inodes, p)
  {
    RecomputedKept(fs.inodes[p].(perm := perm));
  }

  lemma {:induction false} ChangeExactFrom(fs: Fs, p: Path, ch: Change, c: Caller)
    requires Inv(fs) && p in fs.inodes
    ensures
      var (fs', status) := ChangePermissions(fs, p, ch, c);
      var found := Lookup(fs, p, c).1;
      && (found != OK ==> status == EACCES)
      && (found == OK ==> status == if Forbidden(fs.inodes[p].perm, ch, c) then EPERM else OK)
      && (status != OK ==> SamePermissions(fs.inodes, fs'.inodes))
      && (status == OK ==>
        && SameElsewhere(fs.inodes, fs'.inodes, p) && p in fs'.inodes && fs'.inodes[p].dir == fs.inodes[p].dir
        && AsRequested(fs.inodes[p].perm, fs'.inodes[p].perm, fs.inodes[p].dir, ch, c))
  {
    LookupKeepsInv(fs, p, c);
    var fs1 := Lookup(fs, p, c).0;
    SetExact(fs1, p, Changed(fs1.inodes[p].perm, fs1.inodes[p].dir, ch, c));
  }

  /** chmod and chown in every reachable state: who is refused and how, what changes, and that nothing else does. */
  lemma {:induction false} ChangeExact(c0: Caller, events: seq<Event>, fs: Fs, p: Path, ch: Change, c: Caller)
    requires Run(Initial(c0), events, fs)
    ensures
      var (fs', status) := ChangePermissions(fs, p, ch, c);
      var found := Lookup(fs, p, c).1;
      && (p !in fs.inodes ==> status == ENOENT)
      && (p in fs.inodes && found != OK ==> status == EACCES)
      && (p in fs.inodes && found == OK ==> status == if Forbidden(fs.inodes[p].perm, ch, c) then EPERM else OK)
      && (status != OK ==> SamePermissions(fs.inodes, fs'.inodes))
      && (status == OK ==>
        && SameElsewhere(fs.inodes, fs'.inodes, p) && p in fs'.inodes && fs'.inodes[p].dir == fs.inodes[p].dir
        && AsRequested(fs.inodes[p].perm, fs'.inodes[p].perm, fs.inodes[p].dir, ch, c))
  {
    RunReaches(c0, events, fs);
    if p in fs.inodes { ChangeExactFrom(fs, p, ch, c); }
  }

  /** The search restrictions that a directory adds for its children change. */
  ghost predicate RestrictsAnew(i: Inode, perm: Permissions) {
    exists e :: e !in i.inherited && (e in Entries(i.perm) <==> e !in Entries(perm))
  }

  lemma {:induction false} DiffersIfAnew(i: Inode, perm: Permissions)
    requires i.dir && Kept(i)
    ensures Differs(i.children, Own(i.(perm := perm))) <==> RestrictsAnew(i, perm)
  {
    var v := Own(i.(perm := perm));
    EntriesDistinct(perm);
    WithoutElements(Entries(perm), i.inherited);
    DiffersExactly(i.children, v);
    if Differs(i.children, v) {
      var e :| !(e in i.children <==> e in v);
      assert e !in i.inherited;
    }
    if RestrictsAnew(i, perm) {
      var e :| e !in i.inherited && (e in Entries(i.perm) <==> e !in Entries(perm));
      assert !(e in i.children <==> e in v);
    }
  }

  /** The log after a change of an inode. */
  ghost predicate LoggedIfAnew(i: Inode, p: Path, perm: Permissions, version: nat, stamps: map<Path, nat>, fs': Fs) {
    if i.dir && RestrictsAnew(i, perm) then fs'.version == version + 1 && fs'.stamps == stamps[p := version + 1]
    else fs'.version == version && fs'.stamps == stamps
  }

  lemma {:induction false} SetLogged(fs: Fs, p: Path, perm: Permissions)
    requires p in fs.inodes && Kept(fs.inodes[p])
    ensures LoggedIfAnew(fs.inodes[p], p, perm, fs.version, fs.stamps, SetPermissions(fs, p, perm))
  {
    if fs.inodes[p].dir { DiffersIfAnew(fs.inodes[p], perm); }
  }

  lemma {:induction false} LookedUpKept(fs: Fs, p: Path, c: Caller)
    requires Inv(fs) && p in fs.inodes
    ensures
      var fs1 := Lookup(fs, p, c).0;
      p in fs1.inodes && Kept(fs1.inodes[p]) && fs1.version == fs.version && fs1.stamps == fs.stamps
  {
    LookupKeepsInv(fs, p, c);
  }

  /** A permission change is logged, under the next version, exactly if it changes what a directory adds to the search
    restrictions of its children. */
  lemma {:induction false} ChangeLogged(c0: Caller, events: seq<Event>, fs: Fs, p: Path, ch: Change, c: Caller)
    requires Run(Initial(c0), events, fs)
    ensures
      var (fs', status) := ChangePermissions(fs, p, ch, c);
      && (status != OK ==> fs'.version == fs.version && fs'.stamps == fs.stamps)
      && (status == OK ==>
        && p in fs.inodes && p in fs'.inodes
        && LoggedIfAnew(Lookup(fs, p, c).0.inodes[p], p, fs'.inodes[p].perm, fs.version, fs.stamps, fs'))
  {
    RunReaches(c0, events, fs);
    if p in fs.inodes {
      LookedUpKept(fs, p, c);
      var fs1 := Lookup(fs, p, c).0;
      var perm := Changed(fs1.inodes[p].perm, fs1.inodes[p].dir, ch, c);
      SetLogged(fs1, p, perm);
      SetExact(fs1, p, perm);
    }
  }

  // ---------------------------------------------------------------------------------------------
  // Creating and removing
  // ---------------------------------------------------------------------------------------------

  lemma {:induction false} InsertExact(fs: Fs, p: Path, i: Inode)
    requires p != [] && Parent(p) in fs.inodes
    ensures
      var m := Insert(fs, p, i).inodes;
      p in m && m[p].perm == i.perm && m[p].dir == i.dir && SameElsewhere(fs.inodes, m, p)
  {
    InheritKeeps(i, fs.inodes[Parent(p)]);
  }

  /** Creating an inode in every reachable state: it exists, or the parent cannot be looked up, or the caller has no
    write permission there; otherwise it is there with the caller's ids and the given mode, and nothing else changed. */
  lemma {:induction false} CreateExact(
      c0: Caller, events: seq<Event>, fs: Fs, p: Path, dir: bool, mode: Mode, c: Caller)
    requires Run(Initial(c0), events, fs) && p != []
    ensures
      var (fs', status) := Create(fs, p, dir, mode, c);
      var parent := LookupParent(fs, p, c).1;
      && (p in fs.inodes ==> status == if Lookup(fs, p, c).1 == OK then EEXIST else EACCES)
      && (p !in fs.inodes && parent != OK ==> status == parent)
      && (p !in fs.inodes && parent == OK ==>
        status == if c.uid == 0 || ClassOf(fs.inodes[Parent(p)].perm, c).w then OK else EACCES)
      && (status != OK ==> SamePermissions(fs.inodes, fs'.inodes))
      && (status == OK ==>
        && SameElsewhere(fs.inodes, fs'.inodes, p) && p in fs'.inodes && fs'.inodes[p].dir == dir
        && fs'.inodes[p].perm == Permissions(c.uid, c.gid, mode))
  {
    RunReaches(c0, events, fs);
    if p in fs.inodes {
      LookupKeepsInv(fs, p, c);
    } else {
      ParentExact(fs, p, c);
      CreateNew(fs, p, dir, mode, c);
    }
  }

  lemma {:induction false} CreateNew(fs: Fs, p: Path, dir: bool, mode: Mode, c: Caller)
    requires p != [] && p !in fs.inodes && SameWalk(fs.inodes, LookupParent(fs, p, c).0.inodes)
    ensures
      var (fs', status) := Create(fs, p, dir, mode, c);
      var parent := LookupParent(fs, p, c).1;
      && (parent != OK ==> status == parent)
      && (parent == OK ==> status == if c.uid == 0 || ClassOf(fs.inodes[Parent(p)].perm, c).w then OK else EACCES)
      && (status != OK ==> SamePermissions(fs.inodes, fs'.inodes))
      && (status == OK ==>
        && SameElsewhere(fs.inodes, fs'.inodes, p) && p in fs'.inodes && fs'.inodes[p].dir == dir
        && fs'.inodes[p].perm == Permissions(c.uid, c.gid, mode))
  {
    var (mid, status) := LookupParent(fs, p, c);
    if status == OK { InsertExact(mid, p, Inode(dir, Permissions(c.uid, c.gid, mode), [], [], 0)); }
  }

  /** Whether the parent directory lets the caller remove this inode. */
  predicate MayRemove(d: Permissions, file: Permissions, c: Caller) {
    || c.uid == 0
    || (ClassOf(d, c).w && ClassOf(d, c).x && (d.mode.sticky ==> c.uid == d.uid || c.uid == file.uid))
  }

  /** What is removed, given the answer about the parent directory. */
  ghost predicate RemovalAnswer(fs: Fs, p: Path, c: Caller, parent: Status, fs': Fs, status: Status) {
    && (parent != OK ==> status == parent)
    && (parent == OK ==>
      && p != [] && p in fs.inodes && Parent(p) in fs.inodes
      && status == if MayRemove(fs.inodes[Parent(p)].perm, fs.inodes[p].perm, c) then OK else EACCES)
    && (status != OK ==> SamePermissions(fs.inodes, fs'.inodes))
    && (status == OK ==> SameElsewhere(fs.inodes, fs'.inodes, p) && p !in fs'.inodes)
  }

  lemma {:induction false} RemoveFoundAt(fs: Fs, mid: Fs, p: Path, c: Caller)
    requires p != [] && p in fs.inodes && p in mid.inodes && SameWalk(fs.inodes, LookupParent(mid, p, c).0.inodes)
    ensures RemovalAnswer(fs, p, c, LookupParent(mid, p, c).1, RemoveFound(mid, p, c).0, RemoveFound(mid, p, c).1)
  {}

  lemma {:induction false} RemoveFoundExact(fs: Fs, mid: Fs, p: Path, c: Caller)
    requires Inv(fs) && Inv(mid) && SameWalk(fs.inodes, mid.inodes) && p != [] && p in fs.inodes
    ensures RemovalAnswer(fs, p, c, LookupParent(fs, p, c).1, RemoveFound(mid, p, c).0, RemoveFound(mid, p, c).1)
  {
    ParentAgain(fs, mid, p, c);
    ParentExact(mid, p, c);
    SameWalkTransitive(fs.inodes, mid.inodes, LookupParent(mid, p, c).0.inodes);
    RemoveFoundAt(fs, mid, p, c);
  }

  /** Removing an inode in every reachable state: no directory with children, none whose parent forbids it by its write
    and search bits or by its sticky bit; otherwise it is gone, and nothing else changed. */
  lemma {:induction false} RemoveExact(c0: Caller, events: seq<Event>, fs: Fs, p: Path, c: Caller)
    requires Run(Initial(c0), events, fs) && p != []
    ensures
      var (fs', status) := Remove(fs, p, c);
      var parent := LookupParent(fs, p, c).1;
      && (p !in fs.inodes ==> status == ENOENT)
      && (p in fs.inodes && Lookup(fs, p, c).1 != OK ==> status == EACCES)
      && (p in fs.inodes && Lookup(fs, p, c).1 == OK ==>
        if HasChildren(fs.inodes, p) then status == ENOTEMPTY else RemovalAnswer(fs, p, c, parent, fs', status))
      && (status != OK ==> SamePermissions(fs.inodes, fs'.inodes))
  {
    RunReaches(c0, events, fs);
    if p in fs.inodes {
      LookupKeepsInv(fs, p, c);
      var fs1 := Lookup(fs, p, c).0;
      assert HasChildren(fs1.inodes, p) <==> HasChildren(fs.inodes, p);
      if HasChildren(fs1.inodes, p) {
        ChildrenAreInDirectories(fs1.inodes, p);
      } else {
        RemoveFoundExact(fs, fs1, p, c);
      }
    }
  }
}
