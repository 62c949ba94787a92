/** The client that carries out file-system operations on its inodes, each proved against the operation it
  implements. */
module PermissionClient {
  import opened Reachability
  import opened PathPermissions

  /** Entries of v other than those in the list, in order; v shrinks in place. */
  method RemoveDuplicates(v: seq<Entry>, list: seq<Entry>) returns (r: seq<Entry>)
    ensures r == Without(v, list)
  {
    r := v;
    WithoutNothing(v);
    for i := 0 to |list|
      invariant r == Without(v, list[..i])
    {
      var kept := [];
      for j := 0 to |r|
        invariant kept == Without(r[..j], [list[i]])
      {
        assert r[..j + 1] == r[..j] + [r[j]];
        WithoutConcat(r[..j], [r[j]], [list[i]]);
        if r[j] != list[i] { kept := kept + [r[j]]; }
      }
      assert r[..|r|] == r;
      assert list[..i + 1] == list[..i] + [list[i]];
      WithoutTwice(v, list[..i], [list[i]]);
      r := kept;
    }
    assert list[..|list|] == list;
  }

  lemma {:induction false} Regroup(a: seq<Entry>, b: seq<Entry>, c: seq<Entry>)
    ensures a + (b + c) == (a + b) + c
  {}

  lemma {:induction false} WithoutConcat(a: seq<Entry>, b: seq<Entry>, list: seq<Entry>)
    ensures Without(a + b, list) == Without(a, list) + Without(b, list)
  {
    if a == [] {
      assert a + b == b;
    } else {
      WithoutConcat(a[1..], b, list);
      assert (a + b)[1..] == a[1..] + b && (a + b)[0] == a[0];
      Regroup(if a[0] in list then [] else [a[0]], Without(a[1..], list), Without(b, list));
    }
  }

  lemma {:induction false} WithoutTwice(v: seq<Entry>, l1: seq<Entry>, l2: seq<Entry>)
    ensures Without(v, l1 + l2) == Without(Without(v, l1), l2)
  {
    if v != [] {
      WithoutTwice(v[1..], l1, l2);
      var head := if v[0] in l1 then [] else [v[0]];
      WithoutConcat(head, Without(v[1..], l1), l2);
    }
  }

  lemma {:induction false} WithoutNothing(v: seq<Entry>)
    ensures Without(v, []) == v
  {
    if v != [] {
      WithoutNothing(v[1..]);
      assert v == [v[0]] + v[1..];
    }
  }

  method Contains(list: seq<Entry>, e: Entry) returns (found: bool)
    ensures found <==> e in list
  {
    for i := 0 to |list|
      invariant e !in list[..i]
    {
      if list[i] == e { return true; }
      assert list[..i + 1] == list[..i] + [list[i]];
    }
    assert list[..|list|] == list;
    return false;
  }

  /** Adds the restrictions a directory imposes by itself, those on specific users first. */
  method OwnRestrictions(p: Permissions) returns (v: seq<Entry>)
    ensures v == Entries(p)
    ensures forall c :: Searchable(p) ==> (Accepts(v, c) <==> Grants(p, c))
  {
    var user, group, other := p.mode.user.x, p.mode.group.x, p.mode.other.x;
    v := [];
    if !other {
      if user && group { v := v + [Entry(UidOrGid, p.uid, p.gid)]; }
      if user && !group { v := v + [Entry(Uid, p.uid, p.gid)]; }
      if !user && group { v := v + [Entry(Gid, p.uid, p.gid)]; }
    }
    if !user { v := v + [Entry(NotUid, p.uid, p.gid)]; }
    if !group {
      if !user { v := v + [Entry(NotGid, p.uid, p.gid)]; }
      if user && other { v := v + [Entry(GidReqUid, p.uid, p.gid)]; }
    }
    EntriesExact(p);
    assert v == Entries(p);
  }

  /** computePathPermissionChildren on one inode. */
  method ComputePathPermissionChildren(i: Inode) returns (j: Inode, changed: bool)
    ensures j == Recomputed(i) && changed == Differs(i.children, Own(i))
    ensures Kept(j)
  {
    var v := OwnRestrictions(i.perm);
    v := RemoveDuplicates(v, i.inherited);
    changed := |i.children| != |v|;
    for k := 0 to |v|
      invariant changed <==> |i.children| != |v| || exists l :: 0 <= l < k && v[l] !in i.children
    {
      var found := Contains(i.children, v[k]);
      if !found { changed := true; }
    }
    RecomputedKept(i);
    j := if changed then i.(children := v) else i;
  }

  method InheritPathPermissions(i: Inode, parent: Inode) returns (j: Inode)
    ensures j == Inherit(i, parent)
    ensures Kept(j)
    ensures parent.dir && Kept(parent) ==>
      forall c :: Accepts(j.inherited, c) <==> Accepts(parent.inherited, c) && Admits(parent.perm, c)
  {
    j := i.(inherited := parent.inherited, verified := parent.verified);
    for k := 0 to |parent.children|
      invariant j == i.(inherited := parent.inherited + parent.children[..k], verified := parent.verified)
    {
      j := j.(inherited := j.inherited + [parent.children[k]]);
      assert parent.children[..k + 1] == parent.children[..k] + [parent.children[k]];
    }
    assert parent.children[..|parent.children|] == parent.children;
    InheritKeeps(i, parent);
    if parent.dir && Kept(parent) {
      forall c { ChildAccepts(parent, c); }
    }
    if j.dir {
      var changed;
      j, changed := ComputePathPermissionChildren(j);
    }
  }

  class Client {
    var inodes: Tree
    var stamps: map<Path, nat>
    var version: nat

    function State(): Fs
      reads this
    {
      Fs(inodes, stamps, version)
    }

    constructor (c: Caller)
      ensures State() == Initial(c) && Inv(State())
    {
      inodes := Initial(c).inodes;
      stamps := map[];
      version := 0;
      new;
      InitialInv(c);
    }

    method LookupInode(p: Path, c: Caller) returns (status: Status)
      modifies this
      ensures (State(), status) == Lookup(old(State()), p, c)
      decreases |p|, 0
    {
      if p !in inodes { return ENOENT; }
      var stale := inodes[p].verified < Required(stamps, p);
      if stale && p != [] {
        var err := LookupParentInode(p, c);
        if err != OK && err != EACCES { return err; }
        var i := InheritPathPermissions(inodes[p], inodes[Parent(p)]);
        inodes := inodes[p := i];
      }
      var ok := CheckPathPermissions(inodes[p].inherited, c);
      return if ok then OK else EACCES;
    }

    method LookupParentInode(p: Path, c: Caller) returns (status: Status)
      requires p != []
      modifies this
      ensures (State(), status) == LookupParent(old(State()), p, c)
      decreases |p|, -1
    {
      status := LookupInode(Parent(p), c);
      if status != OK { return; }
      if !inodes[Parent(p)].dir { return ENOTDIR; }
      var ok := CheckPathPermissions(inodes[Parent(p)].children, c);
      return if ok then OK else EACCES;
    }

    method CreateInode(p: Path, dir: bool, mode: Mode, c: Caller) returns (status: Status)
      requires p != []
      modifies this
      ensures (State(), status) == Create(old(State()), p, dir, mode, c)
    {
      status := LookupInode(p, c);
      if status == OK { return EEXIST; }
      if status != ENOENT { return; }
      status := LookupParentInode(p, c);
      if status != OK { return; }
      if !Access(inodes[Parent(p)].perm, c, Bits(false, true, false)) { return EACCES; }
      var i := InheritPathPermissions(Inode(dir, Permissions(c.uid, c.gid, mode), [], [], 0), inodes[Parent(p)]);
      inodes := inodes[p := i];
      return OK;
    }

    /** Stores the new permissions and logs the change if it reaches the children. */
    method StorePermissions(p: Path, perm: Permissions)
      requires p in inodes
      modifies this
      ensures State() == SetPermissions(old(State()), p, perm)
    {
      var i := inodes[p].(perm := perm);
      inodes := inodes[p := i];
      if i.dir {
        var j, changed := ComputePathPermissionChildren(i);
        if changed {
          version := version + 1;
          stamps := stamps[p := version];
          inodes := inodes[p := j.(verified := version)];
          assert inodes == old(inodes)[p := j.(verified := version)];
        }
      }
    }

    method DoPermissionChange(p: Path, ch: Change, c: Caller) returns (status: Status)
      modifies this
      ensures (State(), status) == ChangePermissions(old(State()), p, ch, c)
    {
      status := LookupInode(p, c);
      if status != OK { return; }
      if !MayChange(inodes[p].perm, ch, c) { return EPERM; }
      StorePermissions(p, Changed(inodes[p].perm, inodes[p].dir, ch, c));
      return OK;
    }

    method RemoveInode(p: Path, c: Caller) returns (status: Status)
      requires p != []
      modifies this
      ensures (State(), status) == Remove(old(State()), p, c)
    {
      status := LookupInode(p, c);
      if status != OK { return; }
      if inodes[p].dir && HasChildren(inodes, p) { return ENOTEMPTY; }
      status := RemoveFoundInode(p, c);
    }

    method RemoveFoundInode(p: Path, c: Caller) returns (status: Status)
      requires p != [] && p in inodes
      modifies this
      ensures (State(), status) == RemoveFound(old(State()), p, c)
    {
      status := LookupParentInode(p, c);
      if status != OK { return; }
      var d := inodes[Parent(p)].perm;
      if !Access(d, c, Bits(false, true, true)) || StickyForbids(d, inodes[p].perm, c) { return EACCES; }
      ghost var found := State();
      inodes := inodes - {p};
      if p in stamps {
        stamps := stamps - {p};
        version := version + 1;
      }
      assert found.stamps - {p} == stamps;
      assert State() == Drop(found, p);
      return OK;
    }
  }
}
