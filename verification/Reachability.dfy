/** Search restrictions: the entries a directory imposes on everything below it, derived from its owner, group and
  mode. */
module Reachability {
  import opened Prelude

  datatype Caller = Caller(uid: nat, gid: nat)

  datatype Bits = Bits(r: bool, w: bool, x: bool)

  datatype Mode = Mode(user: Bits, group: Bits, other: Bits, sticky: bool, setuid: bool, setgid: bool)

  datatype Permissions = Permissions(uid: nat, gid: nat, mode: Mode)

  datatype Kind = Uid | Gid | UidOrGid | NotUid | NotGid | GidReqUid

  datatype Entry = Entry(kind: Kind, uid: nat, gid: nat)

  predicate Satisfies(e: Entry, c: Caller) {
    match e.kind
    case Uid => c.uid == e.uid
    case Gid => c.gid == e.gid
    case UidOrGid => c.uid == e.uid || c.gid == e.gid
    case NotUid => c.uid != e.uid
    case NotGid => c.gid != e.gid
    case GidReqUid => c.gid == e.gid ==> c.uid == e.uid
  }

  predicate Accepts(list: seq<Entry>, c: Caller) {
    forall e :: e in list ==> Satisfies(e, c)
  }

  /** The scan in check_path_permissions: the first violated entry ends it. */
  method CheckPathPermissions(list: seq<Entry>, c: Caller) returns (ok: bool)
    ensures ok <==> Accepts(list, c)
  {
    for i := 0 to |list|
      invariant forall k :: 0 <= k < i ==> Satisfies(list[k], c)
    {
      var e := list[i];
      var refused;
      match e.kind {
        case Uid => refused := c.uid != e.uid;
        case Gid => refused := c.gid != e.gid;
        case UidOrGid => refused := c.uid != e.uid && c.gid != e.gid;
        case NotGid => refused := c.gid == e.gid;
        case NotUid => refused := c.uid == e.uid;
        case GidReqUid => refused := c.gid == e.gid && c.uid != e.uid;
      }
      assert refused <==> !Satisfies(e, c);
      if refused {
        assert e in list;
        return false;
      }
    }
    return true;
  }

  /** The owner, group and other rule: only the first class that matches the caller counts. */
  predicate Grants(p: Permissions, c: Caller) {
    if c.uid == p.uid then p.mode.user.x
    else if c.gid == p.gid then p.mode.group.x
    else p.mode.other.x
  }

  predicate Searchable(p: Permissions) {
    p.mode.user.x || p.mode.group.x || p.mode.other.x
  }

  function Entries(p: Permissions): seq<Entry> {
    var user, group, other := p.mode.user.x, p.mode.group.x, p.mode.other.x;
    (if other then []
     else if user && group then [Entry(UidOrGid, p.uid, p.gid)]
     else if user then [Entry(Uid, p.uid, p.gid)]
     else if group then [Entry(Gid, p.uid, p.gid)]
     else [])
    + (if user then [] else [Entry(NotUid, p.uid, p.gid)])
    + (if group then []
       else if !user then [Entry(NotGid, p.uid, p.gid)]
       else if other then [Entry(GidReqUid, p.uid, p.gid)]
       else [])
  }

  /** Whether the entries of one directory let a caller through. */
  predicate Admits(p: Permissions, c: Caller) {
    Accepts(Entries(p), c)
  }

  /** The entries say what the permission bits say, except that a directory nobody may search still lets through
    everybody who is neither its owner nor in its group. */
  lemma {:induction false} AdmitsExactly(p: Permissions, c: Caller)
    ensures Admits(p, c) <==> Grants(p, c) || (!Searchable(p) && c.uid != p.uid && c.gid != p.gid)
  {
    var uidOrGid, uid, gid := Entry(UidOrGid, p.uid, p.gid), Entry(Uid, p.uid, p.gid), Entry(Gid, p.uid, p.gid);
    var notUid, notGid, req := Entry(NotUid, p.uid, p.gid), Entry(NotGid, p.uid, p.gid), Entry(GidReqUid, p.uid, p.gid);
    var user, group, other := p.mode.user.x, p.mode.group.x, p.mode.other.x;
    var v := Entries(p);
    assert uidOrGid in v <==> !other && user && group;
    assert uid in v <==> !other && user && !group;
    assert gid in v <==> !other && !user && group;
    assert notUid in v <==> !user;
    assert notGid in v <==> !user && !group;
    assert req in v <==> user && !group && other;
    assert forall e :: e in v ==> e in [uidOrGid, uid, gid, notUid, notGid, req];
  }

  /** Entries agree with the permission bits for every caller exactly when somebody may search the directory. */
  lemma {:induction false} EntriesExact(p: Permissions)
    ensures (forall c :: Admits(p, c) <==> Grants(p, c)) <==> Searchable(p)
  {
    forall c ensures Searchable(p) ==> (Admits(p, c) <==> Grants(p, c)) {
      AdmitsExactly(p, c);
    }
    var stranger := Caller(p.uid + 1, p.gid + 1);
    AdmitsExactly(p, stranger);
  }

  /** The entries of v that are not in the list. */
  function Without(v: seq<Entry>, list: seq<Entry>): seq<Entry> {
    if v == [] then []
    else (if v[0] in list then [] else [v[0]]) + Without(v[1..], list)
  }

  lemma {:induction false} WithoutElements(v: seq<Entry>, list: seq<Entry>)
    ensures forall e :: e in Without(v, list) <==> e in v && e !in list
    ensures |Without(v, list)| <= |v|
    ensures Distinct(v) ==> Distinct(Without(v, list))
  {
    if v != [] {
      WithoutElements(v[1..], list);
      assert v == [v[0]] + v[1..];
      if Distinct(v) {
        assert v[0] !in v[1..];
      }
    }
  }

  lemma {:induction false} EntriesDistinct(p: Permissions)
    ensures Distinct(Entries(p)) && |Entries(p)| <= 2
  {}

  predicate Differs(children: seq<Entry>, v: seq<Entry>) {
    |children| != |v| || exists e :: e in v && e !in children
  }

  lemma {:induction false} SameSize(a: seq<Entry>, b: seq<Entry>)
    requires Distinct(a) && Distinct(b) && forall e :: e in a <==> e in b
    ensures |a| == |b|
  {
    ElementCount(a);
    ElementCount(b);
    assert (set e | e in a) == (set e | e in b);
  }

  lemma {:induction false} ElementCount(a: seq<Entry>)
    requires Distinct(a)
    ensures |set e | e in a| == |a|
    decreases |a|
  {
    if a != [] {
      var init, last := a[..|a| - 1], a[|a| - 1];
      ElementCount(init);
      assert last !in init && (set e | e in a) == (set e | e in init) + {last};
    }
  }

  /** The size and membership test recognises equal sets of at most two different entries, in whatever order. */
  lemma {:induction false} DiffersExactly(children: seq<Entry>, v: seq<Entry>)
    requires Distinct(v) && |v| <= 2
    ensures !Differs(children, v) <==> Distinct(children) && forall e :: e in children <==> e in v
  {
    if Distinct(children) && forall e :: e in children <==> e in v {
      SameSize(children, v);
    }
    if !Differs(children, v) {
      if |v| == 2 {
        assert v[0] in v && v[1] in v && v[0] != v[1];
        var i :| 0 <= i < 2 && children[i] == v[0];
        var j :| 0 <= j < 2 && children[j] == v[1];
        assert children[0] != children[1];
      }
      forall e | e in children ensures e in v {
        if |v| == 1 {
          assert v[0] in children;
        } else if |v| == 2 {
          assert v[0] in children && v[1] in children && v[0] != v[1];
        }
      }
    }
  }
}
