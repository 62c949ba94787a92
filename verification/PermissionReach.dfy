/** Which lookups a logged permission change reaches, and what becomes of timestamps when directories are renamed. */
module PermissionReach {
  import opened Prelude
  import opened PathMap
  import opened PathTrail
  import opened PathRename
  import PathCollisions
  import PathCodec

  // ---------------------------------------------------------------------------------------------
  // A permission change moves nothing
  // ---------------------------------------------------------------------------------------------

  /** Two maps that differ in timestamps and unfollowed entries only. */
  ghost predicate SameMappings(m: Snapshot, m': Snapshot) {
    forall q :: (Followable(m', q) <==> Followable(m, q))
      && (Followable(m, q) ==> m'[q].kind == m[q].kind && m'[q].target == m[q].target)
  }

  lemma {:induction false} ChangeKeepsMappings(m: Snapshot, version: nat, d: string)
    ensures SameMappings(m, AddPermissionChange(m, version, d))
  {}

  lemma {:induction false} SameCandidates(m: Snapshot, m': Snapshot, v: Visit, followSymlink: bool, q: string)
    requires SameMappings(m, m')
    ensures Candidate(m', v, followSymlink, q) <==> Candidate(m, v, followSymlink, q)
  {
    assert Followable(m', q) <==> Followable(m, q);
  }

  /** What is looked at and where it leads is the same. */
  lemma {:induction false} SameVisit(m: Snapshot, m': Snapshot, v: Visit, followSymlink: bool)
    requires SameMappings(m, m')
    ensures forall q :: Candidate(m', v, followSymlink, q) <==> Candidate(m, v, followSymlink, q)
    ensures forall q :: Follows(m', v, followSymlink, q) <==> Follows(m, v, followSymlink, q)
    ensures forall q :: Seen(m', v, followSymlink, q) <==> Seen(m, v, followSymlink, q)
    ensures Overlong(m', v, followSymlink) <==> Overlong(m, v, followSymlink)
    ensures AtLink(m', followSymlink, v) <==> AtLink(m, followSymlink, v)
  {
    forall q ensures Candidate(m', v, followSymlink, q) <==> Candidate(m, v, followSymlink, q) {
      SameCandidates(m, m', v, followSymlink, q);
    }
    forall q ensures Below(m', v, followSymlink, q) <==> Below(m, v, followSymlink, q) {}
    forall q ensures Follows(m', v, followSymlink, q) <==> Follows(m, v, followSymlink, q) {}
    forall q | Follows(m, v, followSymlink, q) ensures m'[q].kind == m[q].kind {
      assert Followable(m, q);
    }
  }

  lemma {:induction false} SameHop(m: Snapshot, m': Snapshot, followSymlink: bool, a: Visit, b: Visit)
    requires SameMappings(m, m') && Hop(m, followSymlink, a, b)
    ensures Hop(m', followSymlink, a, b)
  {
    SameVisit(m, m', a, followSymlink);
    var q :| Follows(m, a, followSymlink, q) && b == Visit(m[q].target + a.path[|q|..], !m[q].kind.Move?);
    assert Followable(m, q) && Follows(m', a, followSymlink, q);
  }

  lemma {:induction false} SameTrail(m: Snapshot, m': Snapshot, followSymlink: bool, t: seq<Visit>)
    requires SameMappings(m, m') && Trail(m, followSymlink, t)
    ensures Trail(m', followSymlink, t) && Links(m', followSymlink, t) == Links(m, followSymlink, t)
    decreases |t|
  {
    if |t| > 1 {
      SameHop(m, m', followSymlink, t[0], t[1]);
      SameVisit(m, m', t[0], followSymlink);
      SameTrail(m, m', followSymlink, t[1..]);
    }
  }

  lemma {:induction false} SameSeen(m: Snapshot, m': Snapshot, followSymlink: bool, t: seq<Visit>, q: string)
    requires SameMappings(m, m')
    ensures SeenOn(m', followSymlink, t, q) <==> SeenOn(m, followSymlink, t, q)
  {
    forall k | 0 <= k < |t| ensures Seen(m', t[k], followSymlink, q) <==> Seen(m, t[k], followSymlink, q) {
      SameVisit(m, m', t[k], followSymlink);
    }
  }

  // ---------------------------------------------------------------------------------------------
  // Which lookups see a permission change
  // ---------------------------------------------------------------------------------------------

  /** The timestamp after a change of directory d. */
  ghost function StampAfter(m: Snapshot, followSymlink: bool, t: seq<Visit>, d: string, version: nat, s: int): int {
    if s >= 0 && SeenOn(m, followSymlink, t, d) then Max(s, version) else s
  }

  lemma {:induction false} ChangedNewest(
      m: Snapshot, followSymlink: bool, t: seq<Visit>, d: string, version: nat, from: int, s: int)
    requires NewestOn(m, followSymlink, t, from, s) && s >= 0 && (d in m ==> m[d].stamp <= version)
    ensures NewestOn(AddPermissionChange(m, version, d), followSymlink, t, from,
      StampAfter(m, followSymlink, t, d, version, s))
  {
    var m', s' := AddPermissionChange(m, version, d), StampAfter(m, followSymlink, t, d, version, s);
    ChangeKeepsMappings(m, version, d);
    forall q ensures SeenOn(m', followSymlink, t, q) <==> SeenOn(m, followSymlink, t, q) {
      SameSeen(m, m', followSymlink, t, q);
    }
    forall q | q in m' && SeenOn(m', followSymlink, t, q) ensures m'[q].stamp <= s' {
      if q != d { assert q in m && m'[q] == m[q]; }
    }
    if s' != s {
      assert s' == version && d in m' && SeenOn(m', followSymlink, t, d) && m'[d].stamp == s';
    } else if s != from {
      var q :| q in m && SeenOn(m, followSymlink, t, q) && m[q].stamp == s;
      if q == d { assert m'[d].stamp == s'; }
      assert q in m' && SeenOn(m', followSymlink, t, q) && m'[q].stamp == s';
    }
  }

  lemma {:induction false} ChangedEnds(m: Snapshot, followSymlink: bool, v: Visit, links: nat, from: int, t: seq<Visit>,
      r: Resolution, d: string, version: nat)
    requires Resolves(m, followSymlink, v, links, from, t, r) && (d in m ==> m[d].stamp <= version) && from >= 0
    ensures Resolves(AddPermissionChange(m, version, d), followSymlink, v, links, from, t,
      Resolved(r.path, StampAfter(m, followSymlink, t, d, version, r.stamp)))
  {
    var m' := AddPermissionChange(m, version, d);
    ChangeKeepsMappings(m, version, d);
    SameTrail(m, m', followSymlink, t);
    SameVisit(m, m', t[|t| - 1], followSymlink);
    if NewestOn(m, followSymlink, t, from, r.stamp) {
      ChangedNewest(m, followSymlink, t, d, version, from, r.stamp);
    }
  }

  /** On every map: a logged permission change leaves where paths lead alone, and makes exactly those lookups return its
    version, or something newer, that look at the changed directory on their way. */
  lemma {:induction false} ChangeReaches(
      m: Snapshot, version: nat, e: DbEntry, userPath: string, lookup: bool, limit: nat) returns (t: seq<Visit>)
    requires |userPath| < PathCodec.NPOS && ToSystemPath(m, userPath, lookup, limit).Resolved? && e.DbNone?
    requires PathCodec.Decode(e.origin) in m ==> m[PathCodec.Decode(e.origin)].stamp <= version
    ensures
      var p, r := PathCodec.Decode(userPath), ToSystemPath(m, userPath, lookup, limit);
      |p| <= PATH_MAX ==>
        && Resolves(m, !lookup, Visit(p, true), 0, 0, t, r)
        && ToSystemPath(Apply(m, version, e), userPath, lookup, limit)
          == Resolved(r.path, StampAfter(m, !lookup, t, PathCodec.Decode(e.origin), version, r.stamp))
  {
    var p, d, r := PathCodec.Decode(userPath), PathCodec.Decode(e.origin), ToSystemPath(m, userPath, lookup, limit);
    t := [];
    if |p| <= PATH_MAX {
      t := HopsTrail(m, Visit(p, true), 0, 0, !lookup, limit);
      ChangedEnds(m, !lookup, Visit(p, true), 0, 0, t, r, d, version);
      TrailDecides(AddPermissionChange(m, version, d), Visit(p, true), 0, 0, !lookup, limit, t,
        Resolved(r.path, StampAfter(m, !lookup, t, d, version, r.stamp)));
    }
  }

  /** A lookup of the changed path itself always sees the change, in whatever form the path is handed over. */
  lemma {:induction false} ChangeReachesItself(
      m: Snapshot, version: nat, userPath: string, userPath': string, lookup: bool, limit: nat)
    requires |userPath| < PathCodec.NPOS && |userPath'| < PathCodec.NPOS
    requires PathCodec.Decode(userPath') == PathCodec.Decode(userPath)
    requires ToSystemPath(m, userPath, lookup, limit).Resolved? && ToSystemPath(m, userPath, lookup, limit).stamp >= 0
    requires PathCodec.Decode(userPath) in m ==> m[PathCodec.Decode(userPath)].stamp <= version
    ensures
      var r' := ToSystemPath(Apply(m, version, DbNone(userPath')), userPath, lookup, limit);
      r'.Resolved? && r'.stamp >= version
  {
    var t := ChangeReaches(m, version, DbNone(userPath'), userPath, lookup, limit);
    var p := PathCodec.Decode(userPath);
    PathIsSeen(m, !lookup, t[0]);
    assert Seen(m, t[0], !lookup, p);
  }

  lemma {:induction false} PathIsSeen(m: Snapshot, followSymlink: bool, v: Visit)
    ensures Seen(m, v, followSymlink, v.path)
  {
    forall r | Candidate(m, v, followSymlink, r) ensures |r| <= |v.path| { assert Under(r, v.path); }
  }

  // ---------------------------------------------------------------------------------------------
  // Histories of renames
  // ---------------------------------------------------------------------------------------------

  /** What a lookup of p looks at: the path down to the mapped directory, and the path it is mapped to as a whole. */
  ghost predicate LookedAt(m: Snapshot, k: string, p: string, q: string)
    requires Followable(m, k) && Under(k, p)
  {
    (Under(q, p) && |q| >= |k|) || Under(q, m[k].target + p[|k|..])
  }

  lemma {:induction false} OnlyCandidate(
      m: Snapshot, version: nat, k: string, p: string, followSymlink: bool, q: string)
    requires Renames(m, version) && Followable(m, k) && Under(k, p)
    ensures Candidate(m, Visit(p, true), followSymlink, q) <==> q == k
  {
    if Candidate(m, Visit(p, true), followSymlink, q) {
      UnderLinear(q, k, p);
      assert Followable(m, q);
    }
  }

  lemma {:induction false} NoCandidateThen(
      m: Snapshot, version: nat, k: string, p: string, followSymlink: bool, q: string)
    requires Renames(m, version) && Followable(m, k) && Under(k, p)
    ensures !Candidate(m, Visit(m[k].target + p[|k|..], !m[k].kind.Move?), followSymlink, q)
  {
    var t := m[k].target;
    UnderSplit(k, p);
    UnderJoin(t, p[|k|..]);
    if Candidate(m, Visit(t + p[|k|..], !m[k].kind.Move?), followSymlink, q) {
      TargetShape(m, version, k);
      assert Followable(m, q);
      if IsStorageName(t) {
        StorageNameFirst(t, q, t + p[|k|..]);
      } else {
        UnderLinear(q, t, t + p[|k|..]);
      }
    }
  }

  /** The trail of a path below a mapped directory. */
  lemma {:induction false} MappedTrail(m: Snapshot, version: nat, k: string, p: string, followSymlink: bool,
      t: seq<Visit>, r: Resolution)
    requires Renames(m, version) && Followable(m, k) && Under(k, p) && r.Resolved? && r.stamp >= 0
    requires Resolves(m, followSymlink, Visit(p, true), 0, 0, t, r)
    ensures t == [Visit(p, true), Visit(m[k].target + p[|k|..], !m[k].kind.Move?)]
  {
    var v, w := Visit(p, true), Visit(m[k].target + p[|k|..], !m[k].kind.Move?);
    forall q ensures Candidate(m, v, followSymlink, q) <==>
      q == k { OnlyCandidate(m, version, k, p, followSymlink, q); }
    assert Follows(m, v, followSymlink, k);
    LinkIsFollowed(m, v, followSymlink, k);
    if |t| > 1 {
      FollowedNext(m, followSymlink, v, k, t[1]);
      assert t[1] == w;
      if |t| > 2 {
        assert Trail(m, followSymlink, t[1..]) && t[1..][0] == w;
        var q := HopFollows(m, followSymlink, w, t[1..][1]);
        NoCandidateThen(m, version, k, p, followSymlink, q);
      }
    }
  }

  lemma {:induction false} FollowedNext(m: Snapshot, followSymlink: bool, v: Visit, k: string, w: Visit)
    requires Hop(m, followSymlink, v, w) && Follows(m, v, followSymlink, k)
    ensures w == Visit(m[k].target + v.path[|k|..], !m[k].kind.Move?)
  {
    var q :| Follows(m, v, followSymlink, q) && w == Visit(m[q].target + v.path[|q|..], !m[q].kind.Move?);
    FollowsUnique(m, v, followSymlink, q, k);
  }

  lemma {:induction false} HopFollows(m: Snapshot, followSymlink: bool, v: Visit, w: Visit) returns (q: string)
    requires Hop(m, followSymlink, v, w)
    ensures Candidate(m, v, followSymlink, q)
  {
    q :| Follows(m, v, followSymlink, q) && w == Visit(m[q].target + v.path[|q|..], !m[q].kind.Move?);
  }

  /** After renames, a lookup below a mapped directory looks at a directory exactly if it is not above the mapped one,
    or is above the path that is mapped to. */
  lemma {:induction false} MappedSeen(m: Snapshot, version: nat, k: string, p: string, followSymlink: bool,
      t: seq<Visit>, r: Resolution, q: string)
    requires Renames(m, version) && Followable(m, k) && Under(k, p) && r.Resolved? && r.stamp >= 0
    requires Resolves(m, followSymlink, Visit(p, true), 0, 0, t, r)
    ensures SeenOn(m, followSymlink, t, q) <==> LookedAt(m, k, p, q)
  {
    var v, w := Visit(p, true), Visit(m[k].target + p[|k|..], !m[k].kind.Move?);
    MappedTrail(m, version, k, p, followSymlink, t, r);
    forall c ensures Candidate(m, v, followSymlink, c) <==>
      c == k { OnlyCandidate(m, version, k, p, followSymlink, c); }
    forall c ensures !Candidate(m, w, followSymlink, c) { NoCandidateThen(m, version, k, p, followSymlink, c); }
    SeenFurther(m, followSymlink, v, [w], q);
    SeenFurther(m, followSymlink, w, [], q);
    assert [w] == [w] + [] && t == [v] + [w];
  }

  lemma {:induction false} UnmappedSeen(
      m: Snapshot, p: string, followSymlink: bool, t: seq<Visit>, r: Resolution, q: string)
    requires !Mapped(m, p) && Resolves(m, followSymlink, Visit(p, true), 0, 0, t, r)
    ensures SeenOn(m, followSymlink, t, q) <==> Under(q, p)
  {
    var v := Visit(p, true);
    forall c ensures !Candidate(m, v, followSymlink, c) {
      if Candidate(m, v, followSymlink, c) { assert Followable(m, c); }
    }
    if |t| > 1 {
      var c := HopFollows(m, followSymlink, v, t[1]);
    }
    assert t == [v] + [];
    SeenFurther(m, followSymlink, v, [], q);
  }

  lemma {:induction false} StampTells(
      m: Snapshot, followSymlink: bool, t: seq<Visit>, d: string, version: nat, s: int)
    requires 0 <= s <= version
    ensures StampAfter(m, followSymlink, t, d, version + 1, s) == version + 1 <==> SeenOn(m, followSymlink, t, d)
  {}

  lemma {:induction false} LookedAbove(m: Snapshot, k: string, p: string, d: string)
    requires Followable(m, k) && Under(k, p) && Under(d, p)
    ensures LookedAt(m, k, p, d) <==> |d| >= |k| || Under(d, m[k].target + p[|k|..])
  {}

  /** After any admissible history of renames, a permission change of a directory reaches a path below it exactly if no
    mapped directory lies between them, or the directory is also above what that one is mapped to. */
  lemma {:induction false} ReachExact(
      m: Snapshot, version: nat, e: DbEntry, userPath: string, p: string, lookup: bool, limit: nat, k: string)
    requires Renames(m, version) && |userPath| < PathCodec.NPOS && p == PathCodec.Decode(userPath) && |p| <= PATH_MAX
    requires Followable(m, k) && Under(k, p) && e.DbNone? && Under(PathCodec.Decode(e.origin), p)
    requires ToSystemPath(m, userPath, lookup, limit).Resolved?
    requires 0 <= ToSystemPath(m, userPath, lookup, limit).stamp <= version
    requires PathCodec.Decode(e.origin) in m ==> m[PathCodec.Decode(e.origin)].stamp <= version
    ensures
      var d, r' := PathCodec.Decode(e.origin), ToSystemPath(Apply(m, version + 1, e), userPath, lookup, limit);
      && r'.Resolved? && r'.path == ToSystemPath(m, userPath, lookup, limit).path
      && (r'.stamp == version + 1 <==> |d| >= |k| || Under(d, m[k].target + p[|k|..]))
  {
    var d, r := PathCodec.Decode(e.origin), ToSystemPath(m, userPath, lookup, limit);
    var t := ChangeReaches(m, version + 1, e, userPath, lookup, limit);
    MappedSeen(m, version, k, p, !lookup, t, r, d);
    StampTells(m, !lookup, t, d, version, r.stamp);
    LookedAbove(m, k, p, d);
  }

  /** A change above a renamed directory and not above its old place is not seen. */
  lemma {:induction false} UnseenAbove(
      m: Snapshot, version: nat, b: string, e: DbEntry, d: string, userPath: string, lookup: bool, limit: nat)
    requires Renames(m, version) && Followable(m, b) && Apart(m[b].target, b) && d !in m
    requires e.DbNone? && d == PathCodec.Decode(e.origin)
    requires Under(d, b) && d != b && !Under(d, m[b].target) && |userPath| < PathCodec.NPOS
    requires Under(b, PathCodec.Decode(userPath)) && |PathCodec.Decode(userPath)| <= PATH_MAX
    requires ToSystemPath(m, userPath, lookup, limit).Resolved? && ToSystemPath(m, userPath, lookup, limit).stamp >= 0
    ensures ToSystemPath(Apply(m, version + 1, e), userPath, lookup, limit)
      == ToSystemPath(m, userPath, lookup, limit)
  {
    var p, a := PathCodec.Decode(userPath), m[b].target;
    var t := ChangeReaches(m, version + 1, e, userPath, lookup, limit);
    MappedSeen(m, version, b, p, !lookup, t, ToSystemPath(m, userPath, lookup, limit), d);
    UnderSplit(b, p);
    UnderJoin(a, p[|b|..]);
    if Under(d, a + p[|b|..]) {
      UnderLinear(d, a, a + p[|b|..]);
      UnderTransitive(a, d, b);
    }
  }

  lemma {:induction false} UnderTransitive(a: string, b: string, c: string)
    requires Under(a, b) && Under(b, c)
    ensures Under(a, c)
  {
    if |a| < |b| < |c| { assert c[..|a|] == c[..|b|][..|a|]; }
  }

  lemma {:induction false} FirstMoveFacts(a: string, b: string)
    requires PathCollisions.Plain(a) && PathCollisions.Plain(b) && Apart(a, b)
    ensures
      var m := AddDirectoryMove(map[], 1, a, b);
      Renames(m, 1) && Followable(m, b) && m[b].target == a && m.Keys == {a, b}
  {
    PathCollisions.FirstMove(a, b);
    PathCollisions.FirstMoveMap(a, b);
  }

  lemma {:induction false} MoveThenChmod(a: string, b: string, d: string)
    requires PathCollisions.Plain(a) && PathCollisions.Plain(b) && PathCollisions.Plain(d) && a != b
    ensures
      var m, mv, chmod := AddDirectoryMove(map[], 1, a, b), PathCollisions.Mv(a, b), PathCollisions.Chmod(d);
      && MapOf([mv]) == m && MapOf([mv, chmod]) == Apply(m, 2, chmod)
      && chmod.DbNone? && PathCodec.Decode(chmod.origin) == d
  {
    PathCollisions.OneEntry(PathCollisions.Mv(a, b));
    PathCollisions.TwoEntries(PathCollisions.Mv(a, b), PathCollisions.Chmod(d));
    PathCollisions.ChmodIs(d);
  }

  /** mv a b, then chmod of a directory above b and not above a: no lookup below b notices. */
  lemma {:induction false} ChangeAboveMoveUnseen(
      a: string, b: string, d: string, userPath: string, lookup: bool, limit: nat)
    requires PathCollisions.Plain(a) && PathCollisions.Plain(b) && PathCollisions.Plain(d) && Apart(a, b)
    requires Under(d, b) && d != b && !Under(d, a) && |userPath| < PathCodec.NPOS
    requires Under(b, PathCodec.Decode(userPath)) && |PathCodec.Decode(userPath)| <= PATH_MAX
    ensures
      var mv, chmod := PathCollisions.Mv(a, b), PathCollisions.Chmod(d);
      var r := ToSystemPath(MapOf([mv]), userPath, lookup, limit);
      r.Resolved? && r.stamp >= 0 ==> ToSystemPath(MapOf([mv, chmod]), userPath, lookup, limit) == r
  {
    var m, chmod := AddDirectoryMove(map[], 1, a, b), PathCollisions.Chmod(d);
    FirstMoveFacts(a, b);
    MoveThenChmod(a, b, d);
    var r := ToSystemPath(m, userPath, lookup, limit);
    if r.Resolved? && r.stamp >= 0 { UnseenAbove(m, 1, b, chmod, d, userPath, lookup, limit); }
  }

  // ---------------------------------------------------------------------------------------------
  // Timestamps of a renamed directory
  // ---------------------------------------------------------------------------------------------

  /** What a lookup of a + x looks at before, and a lookup of b + x after, a rename of a to b. */
  ghost predicate LookedBefore(m: Snapshot, a: string, x: string, q: string) {
    if a in m then Followable(m, a) && Under(a, a + x) && LookedAt(m, a, a + x, q) else Under(q, a + x)
  }

  ghost predicate LookedAfter(m: Snapshot, a: string, b: string, x: string, q: string) {
    if Circular(m, a, b) then Under(q, b + x)
    else (Under(q, b + x) && |q| >= |b|) || Under(q, Source(m, a) + x)
  }

  /** Entries that no longer count: those at or below the old name if it was mapped, except that the mapping itself
    takes its timestamp along; and with a rename that undoes another one, both mappings. */
  ghost predicate DroppedBy(m: Snapshot, a: string, b: string, x: string, q: string) {
    || (a in m && Under(q, a + x) && |q| >= |a| && (q != a || Circular(m, a, b)))
    || (Circular(m, a, b) && q == b)
  }

  lemma {:induction false} SeenBefore(m: Snapshot, version: nat, a: string, b: string, x: string, followSymlink: bool,
      t: seq<Visit>, r: Resolution, q: string)
    requires Renames(m, version) && MayMove(m, a, b) && Suffix(x) && r.Resolved? && r.stamp >= 0
    requires Resolves(m, followSymlink, Visit(a + x, true), 0, 0, t, r)
    ensures SeenOn(m, followSymlink, t, q) <==> LookedBefore(m, a, x, q)
  {
    UnderJoin(a, x);
    if a in m {
      MappedSeen(m, version, a, a + x, followSymlink, t, r, q);
    } else {
      Unmapped(m, a, x);
      UnmappedSeen(m, a + x, followSymlink, t, r, q);
    }
  }

  lemma {:induction false} SeenAfter(m: Snapshot, version: nat, a: string, b: string, x: string, followSymlink: bool,
      t: seq<Visit>, r: Resolution, q: string)
    requires Renames(m, version) && MayMove(m, a, b) && Suffix(x) && r.Resolved? && r.stamp >= 0
    requires Resolves(AddDirectoryMove(m, version + 1, a, b), followSymlink, Visit(b + x, true), 0, 0, t, r)
    ensures SeenOn(AddDirectoryMove(m, version + 1, a, b), followSymlink, t, q) <==> LookedAfter(m, a, b, x, q)
  {
    var m' := AddDirectoryMove(m, version + 1, a, b);
    MoveKeepsRenames(m, version, a, b);
    MoveEntries(m, version, a, b);
    UnderJoin(b, x);
    if Circular(m, a, b) {
      CircularUnmaps(m, version, a, b, x);
      UnmappedSeen(m', b + x, followSymlink, t, r, q);
    } else {
      assert Followable(m', b);
      MappedSeen(m', version + 1, b, b + x, followSymlink, t, r, q);
    }
  }

  /** The content's own path is apart from both names, but for an unmapped origin, whose name it starts with. */
  lemma {:induction false} SourceApart(m: Snapshot, version: nat, a: string, b: string, x: string)
    requires Renames(m, version) && MayMove(m, a, b) && Suffix(x)
    ensures !Under(b, Source(m, a) + x) || Circular(m, a, b)
    ensures a in m ==> !Under(a, Source(m, a) + x)
  {
    var t := Source(m, a);
    UnderJoin(t, x);
    if a in m { TargetShape(m, version, a); }
    forall k | k in {a, b} && Under(k, t + x) ensures k == t || Under(k, t) || Under(t, k) {
      UnderLinear(k, t, t + x);
    }
    if a in m && IsStorageName(t) {
      forall k | Under(k, t + x) ensures k != "" && k[0] == '|' { StorageNameFirst(t, k, t + x); }
    }
  }

  /** Whatever counted before and is not dropped has a counterpart that counts after. */
  lemma {:induction false} Counterpart(m: Snapshot, version: nat, a: string, b: string, x: string, q: string)
    returns (q': string)
    requires Renames(m, version) && MayMove(m, a, b) && Suffix(x)
    requires q in m && LookedBefore(m, a, x, q) && !DroppedBy(m, a, b, x, q)
    ensures
      var m' := AddDirectoryMove(m, version + 1, a, b);
      q' in m' && LookedAfter(m, a, b, x, q') && m'[q'].stamp == m[q].stamp
  {
    MoveEntries(m, version, a, b);
    SourceApart(m, version, a, b, x);
    UnderJoin(a, x);
    UnderJoin(b, x);
    if a in m && q == a {
      q' := b;
    } else {
      q' := q;
    }
  }

  /** After renames: a renamed directory's content is checked against timestamps that are as new as before exactly if no
    newer one was dropped with the old name. */
  lemma {:induction false} MoveStampsExact(m: Snapshot, version: nat, a: string, b: string, x: string,
      followSymlink: bool, limit: nat, limit': nat)
    requires Renames(m, version) && MayMove(m, a, b) && Suffix(x)
    requires
      var r := Hops(m, a + x, 0, 0, true, followSymlink, limit);
      r.Resolved? && r.stamp >= 0
    requires
      var r' := Hops(AddDirectoryMove(m, version + 1, a, b), b + x, 0, 0, true, followSymlink, limit');
      r'.Resolved? && r'.stamp >= 0
    ensures
      var r := Hops(m, a + x, 0, 0, true, followSymlink, limit);
      var r' := Hops(AddDirectoryMove(m, version + 1, a, b), b + x, 0, 0, true, followSymlink, limit');
      r'.stamp >= r.stamp <==> forall q :: q in m && DroppedBy(m, a, b, x, q) ==> m[q].stamp <= r'.stamp
  {
    var m' := AddDirectoryMove(m, version + 1, a, b);
    var r, r' := Hops(m, a + x, 0, 0, true, followSymlink, limit), Hops(m', b + x, 0, 0, true, followSymlink, limit');
    var t := HopsTrail(m, Visit(a + x, true), 0, 0, followSymlink, limit);
    var t' := HopsTrail(m', Visit(b + x, true), 0, 0, followSymlink, limit');
    CountsBefore(m, version, a, b, x, followSymlink, t, r);
    forall q | q in m && DroppedBy(m, a, b, x, q) ensures m[q].stamp <= r.stamp {
      DroppedCounted(m, version, a, b, x, q);
    }
    if r.stamp > 0 && forall q :: q in m && DroppedBy(m, a, b, x, q) ==> m[q].stamp <= r'.stamp {
      var q :| q in m && LookedBefore(m, a, x, q) && m[q].stamp == r.stamp;
      if !DroppedBy(m, a, b, x, q) { StillCounts(m, version, a, b, x, followSymlink, t', r', q); }
    }
  }

  /** What is not dropped is counted by a lookup after the rename. */
  lemma {:induction false} StillCounts(m: Snapshot, version: nat, a: string, b: string, x: string, followSymlink: bool,
      t: seq<Visit>, r: Resolution, q: string)
    requires Renames(m, version) && MayMove(m, a, b) && Suffix(x) && r.Resolved? && r.stamp >= 0
    requires Resolves(AddDirectoryMove(m, version + 1, a, b), followSymlink, Visit(b + x, true), 0, 0, t, r)
    requires q in m && LookedBefore(m, a, x, q) && !DroppedBy(m, a, b, x, q)
    ensures m[q].stamp <= r.stamp
  {
    var q' := Counterpart(m, version, a, b, x, q);
    SeenAfter(m, version, a, b, x, followSymlink, t, r, q');
    assert NewestOn(AddDirectoryMove(m, version + 1, a, b), followSymlink, t, 0, r.stamp);
  }

  /** What a lookup before the rename returns. */
  lemma {:induction false} CountsBefore(m: Snapshot, version: nat, a: string, b: string, x: string, followSymlink: bool,
      t: seq<Visit>, r: Resolution)
    requires Renames(m, version) && MayMove(m, a, b) && Suffix(x) && r.Resolved? && r.stamp >= 0
    requires Resolves(m, followSymlink, Visit(a + x, true), 0, 0, t, r)
    ensures forall q :: q in m && LookedBefore(m, a, x, q) ==> m[q].stamp <= r.stamp
    ensures r.stamp == 0 || exists q :: q in m && LookedBefore(m, a, x, q) && m[q].stamp == r.stamp
  {
    forall q ensures SeenOn(m, followSymlink, t, q) <==> LookedBefore(m, a, x, q) {
      SeenBefore(m, version, a, b, x, followSymlink, t, r, q);
    }
    assert NewestOn(m, followSymlink, t, 0, r.stamp);
  }

  lemma {:induction false} DroppedCounted(m: Snapshot, version: nat, a: string, b: string, x: string, q: string)
    requires Renames(m, version) && MayMove(m, a, b) && Suffix(x) && q in m && DroppedBy(m, a, b, x, q)
    ensures LookedBefore(m, a, x, q)
  {
    UnderJoin(a, x);
    UnderJoin(b, x);
  }

  lemma {:induction false} UndoneMap(a: string, b: string)
    requires a != b
    ensures
      var m := AddPermissionChange(AddDirectoryMove(map[], 1, a, b), 2, b);
      b in m && m[b].stamp == 2 && AddDirectoryMove(m, 3, b, a) == map[]
  {
    PathCollisions.FirstMoveMap(a, b);
    var m := AddPermissionChange(AddDirectoryMove(map[], 1, a, b), 2, b);
    assert m == map[b := Mapping(Move, a, 2), a := Mapping(Reuse, ReuseName(1), 0)];
  }

  /** mv a b, chmod b, mv b a: lookups below the directory had to be as new as the change and no longer do. */
  lemma {:induction false} UndoneMoveForgets(a: string, b: string, x: string, followSymlink: bool, limit: nat)
    requires PathCollisions.Plain(a) && PathCollisions.Plain(b) && Apart(a, b) && Suffix(x)
    ensures
      var m := MapOf([PathCollisions.Mv(a, b), PathCollisions.Chmod(b)]);
      var r := Hops(m, b + x, 0, 0, true, followSymlink, limit);
      r.Resolved? && r.stamp >= 0 ==> r.stamp >= 2
    ensures
      var m := MapOf([PathCollisions.Mv(a, b), PathCollisions.Chmod(b), PathCollisions.Mv(b, a)]);
      var r := Hops(m, a + x, 0, 0, true, followSymlink, limit);
      r.Resolved? && r.stamp >= 0 ==> r.stamp == 0
  {
    UndoneMap(a, b);
    ForgetsBefore(a, b, x, followSymlink, limit);
    PathCollisions.TwoEntries(PathCollisions.Mv(a, b), PathCollisions.Chmod(b));
    PathCollisions.ThreeEntries(PathCollisions.Mv(a, b), PathCollisions.Chmod(b), PathCollisions.Mv(b, a));
    NothingToSee(a + x, followSymlink, limit);
  }

  lemma {:induction false} NothingToSee(p: string, followSymlink: bool, limit: nat)
    ensures
      var r := Hops(map[], p, 0, 0, true, followSymlink, limit);
      r.Resolved? && r.stamp >= 0 ==> r.stamp == 0
  {
    var none: Snapshot := map[];
    var r := Hops(none, p, 0, 0, true, followSymlink, limit);
    if r.Resolved? && r.stamp >= 0 {
      var t := HopsTrail(none, Visit(p, true), 0, 0, followSymlink, limit);
      assert NewestOn(none, followSymlink, t, 0, r.stamp);
    }
  }

  lemma {:induction false} ForgetsBefore(a: string, b: string, x: string, followSymlink: bool, limit: nat)
    requires PathCollisions.Plain(a) && PathCollisions.Plain(b) && Apart(a, b) && Suffix(x)
    ensures
      var m := AddPermissionChange(AddDirectoryMove(map[], 1, a, b), 2, b);
      var r := Hops(m, b + x, 0, 0, true, followSymlink, limit);
      r.Resolved? && r.stamp >= 0 ==> r.stamp >= 2
  {
    var m1 := AddDirectoryMove(map[], 1, a, b);
    var m := AddPermissionChange(m1, 2, b);
    UndoneMap(a, b);
    FirstMoveFacts(a, b);
    PermissionChangeKeepsRenames(m1, 1, b);
    var r := Hops(m, b + x, 0, 0, true, followSymlink, limit);
    if r.Resolved? && r.stamp >= 0 { MappingIsSeen(m, 2, b, x, followSymlink, limit); }
  }

  /** A lookup below a mapped directory is told the timestamp of the mapping, or a newer one. */
  lemma {:induction false} MappingIsSeen(
      m: Snapshot, version: nat, k: string, x: string, followSymlink: bool, limit: nat)
    requires Renames(m, version) && Followable(m, k) && Suffix(x)
    requires
      var r := Hops(m, k + x, 0, 0, true, followSymlink, limit);
      r.Resolved? && r.stamp >= 0
    ensures Hops(m, k + x, 0, 0, true, followSymlink, limit).stamp >= m[k].stamp
  {
    var r := Hops(m, k + x, 0, 0, true, followSymlink, limit);
    var t := HopsTrail(m, Visit(k + x, true), 0, 0, followSymlink, limit);
    UnderJoin(k, x);
    MappedSeen(m, version, k, k + x, followSymlink, t, r, k);
    assert NewestOn(m, followSymlink, t, 0, r.stamp);
  }
}
