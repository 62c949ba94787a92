/** What resolving a path passes by: each remap follows the longest directory that is mapped, and the timestamp that
  comes out is the newest one of all map entries that were looked at.
 */
module PathTrail {
  import opened Prelude
  import opened PathMap
  import PathCodec

  /** A path on the way, and whether reuse mappings are followed from it. */
  datatype Visit = Visit(path: string, followReuse: bool)

  ghost predicate Candidate(m: Snapshot, v: Visit, followSymlink: bool, q: string) {
    MayFollow(m, v.path, q, v.followReuse, followSymlink)
  }

  /** The longest directory whose mapping may be followed. */
  ghost predicate Follows(m: Snapshot, v: Visit, followSymlink: bool, q: string) {
    Candidate(m, v, followSymlink, q) && forall r :: Candidate(m, v, followSymlink, r) ==> |r| <= |q|
  }

  /** The directories that are looked at: from the whole path up to the one that is followed. */
  ghost predicate Seen(m: Snapshot, v: Visit, followSymlink: bool, q: string) {
    Under(q, v.path) && forall r :: Candidate(m, v, followSymlink, r) ==> |r| <= |q|
  }

  predicate LongName(q: string) {
    |q| - 1 - LastSlash(q) > NAME_MAX
  }

  /** A name below the directory that is followed is too long. */
  ghost predicate Overlong(m: Snapshot, v: Visit, followSymlink: bool) {
    exists q {:trigger Below(m, v, followSymlink, q)} :: LongName(q) && Below(m, v, followSymlink, q)
  }

  /** A directory of the path below the one that is followed. */
  ghost predicate Below(m: Snapshot, v: Visit, followSymlink: bool, q: string) {
    Under(q, v.path) && forall r :: Candidate(m, v, followSymlink, r) ==> |r| < |q|
  }

  // ---------------------------------------------------------------------------------------------
  // One search
  // ---------------------------------------------------------------------------------------------

  /** The newest of a timestamp and those of the entries looked at. */
  ghost predicate NewestSeen(m: Snapshot, v: Visit, followSymlink: bool, from: int, s: int) {
    && from <= s
    && (forall q :: q in m && Seen(m, v, followSymlink, q) ==> m[q].stamp <= s)
    && (s == from || exists q :: q in m && Seen(m, v, followSymlink, q) && m[q].stamp == s)
  }

  ghost predicate SearchOutcome(m: Snapshot, v: Visit, followSymlink: bool, from: int, r: SearchResult) {
    if Overlong(m, v, followSymlink) then r == Nothing(ENAMETOOLONG)
    else
      && r.stamp >= 0 && NewestSeen(m, v, followSymlink, from, r.stamp)
      && (r.Found? ==> Follows(m, v, followSymlink, r.path))
      && (r.Nothing? ==> forall q :: !Candidate(m, v, followSymlink, q))
  }

  /** Unless the path itself may be followed, its directories are those of its parent. */
  lemma {:induction false} ParentCandidates(m: Snapshot, v: Visit, followSymlink: bool)
    requires !Followed(m, v.path, v.followReuse, followSymlink) && LastSlash(v.path) >= 0
    ensures
      var u := Visit(v.path[..LastSlash(v.path)], v.followReuse);
      forall q :: Candidate(m, v, followSymlink, q) <==> Candidate(m, u, true, q)
  {
    var u := Visit(v.path[..LastSlash(v.path)], v.followReuse);
    forall q ensures Candidate(m, v, followSymlink, q) <==> Candidate(m, u, true, q) {
      if q != v.path { UnderParent(q, v.path); }
      assert |u.path| < |v.path|;
    }
  }

  lemma {:induction false} NoParentNoCandidates(m: Snapshot, v: Visit, followSymlink: bool, q: string)
    requires !Followed(m, v.path, v.followReuse, followSymlink) && LastSlash(v.path) < 0
    ensures !Candidate(m, v, followSymlink, q) && (Under(q, v.path) <==> q == v.path)
  {
    if q != v.path { UnderParent(q, v.path); }
  }

  /** The path itself is looked at in any case, and the rest is what is looked at of the parent. */
  lemma {:induction false} ParentSeen(m: Snapshot, v: Visit, followSymlink: bool, q: string)
    requires !Followed(m, v.path, v.followReuse, followSymlink) && LastSlash(v.path) >= 0
    ensures Seen(m, v, followSymlink, v.path)
    ensures q != v.path ==>
      (Seen(m, v, followSymlink, q) <==> Seen(m, Visit(v.path[..LastSlash(v.path)], v.followReuse), true, q))
  {
    ParentCandidates(m, v, followSymlink);
    if q != v.path { UnderParent(q, v.path); }
  }

  lemma {:induction false} ParentOverlong(m: Snapshot, v: Visit, followSymlink: bool)
    requires !Followed(m, v.path, v.followReuse, followSymlink) && LastSlash(v.path) >= 0
    ensures Overlong(m, v, followSymlink) <==>
      LongName(v.path) || Overlong(m, Visit(v.path[..LastSlash(v.path)], v.followReuse), true)
  {
    var u := Visit(v.path[..LastSlash(v.path)], v.followReuse);
    ParentCandidates(m, v, followSymlink);
    if Overlong(m, v, followSymlink) {
      var q :| LongName(q) && Below(m, v, followSymlink, q);
      if q != v.path {
        UnderParent(q, v.path);
        assert Below(m, u, true, q);
      }
    }
    if Overlong(m, u, true) {
      var q :| LongName(q) && Below(m, u, true, q);
      UnderParent(q, v.path);
      assert Below(m, v, followSymlink, q);
    }
    if LongName(v.path) {
      forall r | Candidate(m, v, followSymlink, r) ensures |r| < |v.path| { assert Under(r, u.path); }
      assert Below(m, v, followSymlink, v.path);
    }
  }

  lemma {:induction false} ParentNewest(
      m: Snapshot, v: Visit, followSymlink: bool, from: int, seen: int, s: int)
    requires !Followed(m, v.path, v.followReuse, followSymlink) && LastSlash(v.path) >= 0
    requires seen == if v.path in m then Max(from, m[v.path].stamp) else from
    requires NewestSeen(m, Visit(v.path[..LastSlash(v.path)], v.followReuse), true, seen, s)
    ensures NewestSeen(m, v, followSymlink, from, s)
  {
    var u := Visit(v.path[..LastSlash(v.path)], v.followReuse);
    forall q | q in m && Seen(m, v, followSymlink, q) ensures m[q].stamp <= s {
      ParentSeen(m, v, followSymlink, q);
    }
    ParentSeen(m, v, followSymlink, v.path);
    if s != seen {
      var q :| q in m && Seen(m, u, true, q) && m[q].stamp == s;
      ParentSeen(m, v, followSymlink, q);
      assert q != v.path;
    }
  }

  /** A path that may be followed is the only one looked at. */
  lemma {:induction false} FollowedHere(m: Snapshot, v: Visit, followSymlink: bool, from: nat)
    requires Followed(m, v.path, v.followReuse, followSymlink)
    ensures SearchOutcome(m, v, followSymlink, from, Found(v.path, Max(from, m[v.path].stamp)))
  {
    assert Candidate(m, v, followSymlink, v.path);
    assert forall q :: Under(q, v.path) ==> |q| <= |v.path|;
    assert Seen(m, v, followSymlink, v.path);
  }

  /** searchPathRecursive, whole: what it finds and the timestamp it returns. */
  lemma {:induction false} SearchExact(m: Snapshot, v: Visit, followSymlink: bool, from: nat)
    ensures SearchOutcome(m, v, followSymlink, from, Search(m, v.path, from, v.followReuse, followSymlink))
    decreases |v.path|
  {
    var seen := if v.path in m then Max(from, m[v.path].stamp) else from;
    var pos := LastSlash(v.path);
    if Followed(m, v.path, v.followReuse, followSymlink) {
      FollowedHere(m, v, followSymlink, from);
    } else if pos < 0 {
      forall q ensures !Candidate(m, v, followSymlink, q) && (Under(q, v.path) <==> q == v.path) {
        NoParentNoCandidates(m, v, followSymlink, q);
      }
      assert Seen(m, v, followSymlink, v.path) && Below(m, v, followSymlink, v.path);
    } else {
      ParentOverlong(m, v, followSymlink);
      if !LongName(v.path) {
        var u := Visit(v.path[..pos], v.followReuse);
        SearchExact(m, u, true, seen);
        ParentCandidates(m, v, followSymlink);
        if !Overlong(m, u, true) {
          ParentNewest(m, v, followSymlink, from, seen, Search(m, u.path, seen, v.followReuse, true).stamp);
        }
      }
    }
  }

  // ---------------------------------------------------------------------------------------------
  // Search after search
  // ---------------------------------------------------------------------------------------------

  /** One remap: the directory that is followed is replaced by its target. */
  ghost predicate Hop(m: Snapshot, followSymlink: bool, a: Visit, b: Visit) {
    && !Overlong(m, a, followSymlink)
    && exists q {:trigger Follows(m, a, followSymlink, q)} ::
         Follows(m, a, followSymlink, q) && b == Visit(m[q].target + a.path[|q|..], !m[q].kind.Move?)
  }

  /** The next remap follows a symbolic link. */
  ghost predicate AtLink(m: Snapshot, followSymlink: bool, v: Visit) {
    exists q {:trigger Follows(m, v, followSymlink, q)} :: Follows(m, v, followSymlink, q) && m[q].kind.Symlink?
  }

  ghost predicate Trail(m: Snapshot, followSymlink: bool, t: seq<Visit>) {
    t != [] && (|t| > 1 ==> Hop(m, followSymlink, t[0], t[1]) && Trail(m, followSymlink, t[1..]))
  }

  /** How many links a trail follows. */
  ghost function Links(m: Snapshot, followSymlink: bool, t: seq<Visit>): nat {
    if |t| <= 1 then 0 else (if AtLink(m, followSymlink, t[0]) then 1 else 0) + Links(m, followSymlink, t[1..])
  }

  ghost predicate SeenOn(m: Snapshot, followSymlink: bool, t: seq<Visit>, q: string) {
    exists k :: 0 <= k < |t| && Seen(m, t[k], followSymlink, q)
  }

  /** The newest of a timestamp and those of all entries looked at on the trail. */
  ghost predicate NewestOn(m: Snapshot, followSymlink: bool, t: seq<Visit>, from: int, s: int) {
    && from <= s
    && (forall q :: q in m && SeenOn(m, followSymlink, t, q) ==> m[q].stamp <= s)
    && (s == from || exists q :: q in m && SeenOn(m, followSymlink, t, q) && m[q].stamp == s)
  }

  /** How a trail ends: with nothing to follow, with a name that is too long, or in front of one link too many. */
  ghost predicate Ends(m: Snapshot, followSymlink: bool, t: seq<Visit>, links: nat, from: int, s: int)
    requires t != []
  {
    var last := t[|t| - 1];
    var followed := links + Links(m, followSymlink, t);
    && followed <= MAXSYMLINKS
    && if Overlong(m, last, followSymlink) then s == ENAMETOOLONG
      else if AtLink(m, followSymlink, last) && followed == MAXSYMLINKS then s == ELOOP
      else (forall q :: !Candidate(m, last, followSymlink, q)) && NewestOn(m, followSymlink, t, from, s)
  }

  lemma {:induction false} SingleNewest(m: Snapshot, followSymlink: bool, v: Visit, from: int, s: int)
    requires NewestSeen(m, v, followSymlink, from, s)
    ensures NewestOn(m, followSymlink, [v], from, s)
  {
    forall q ensures SeenOn(m, followSymlink, [v], q) <==> Seen(m, v, followSymlink, q) {
      if Seen(m, v, followSymlink, q) { assert Seen(m, [v][0], followSymlink, q); }
    }
  }

  lemma {:induction false} SeenFurther(m: Snapshot, followSymlink: bool, v: Visit, t: seq<Visit>, q: string)
    ensures SeenOn(m, followSymlink, [v] + t, q) <==> Seen(m, v, followSymlink, q) || SeenOn(m, followSymlink, t, q)
  {
    var all := [v] + t;
    if SeenOn(m, followSymlink, t, q) {
      var k :| 0 <= k < |t| && Seen(m, t[k], followSymlink, q);
      assert Seen(m, all[k + 1], followSymlink, q);
    }
    if Seen(m, v, followSymlink, q) { assert Seen(m, all[0], followSymlink, q); }
    if SeenOn(m, followSymlink, all, q) {
      var k :| 0 <= k < |all| && Seen(m, all[k], followSymlink, q);
      if k > 0 { assert t[k - 1] == all[k]; }
    }
  }

  lemma {:induction false} NewestFurther(
      m: Snapshot, followSymlink: bool, v: Visit, t: seq<Visit>, from: int, seen: int, s: int)
    requires NewestSeen(m, v, followSymlink, from, seen) && NewestOn(m, followSymlink, t, seen, s)
    ensures NewestOn(m, followSymlink, [v] + t, from, s)
  {
    forall q ensures
      SeenOn(m, followSymlink, [v] + t, q) <==> Seen(m, v, followSymlink, q) || SeenOn(m, followSymlink, t, q)
    {
      SeenFurther(m, followSymlink, v, t, q);
    }
  }

  lemma {:induction false} TrailFurther(
      m: Snapshot, followSymlink: bool, v: Visit, t: seq<Visit>, links: nat, from: int, seen: int, s: int)
    requires Trail(m, followSymlink, t) && Hop(m, followSymlink, v, t[0])
    requires NewestSeen(m, v, followSymlink, from, seen)
    requires Ends(m, followSymlink, t, links + if AtLink(m, followSymlink, v) then 1 else 0, seen, s)
    ensures Trail(m, followSymlink, [v] + t) && Ends(m, followSymlink, [v] + t, links, from, s)
  {
    var all := [v] + t;
    assert all[1..] == t && all[|all| - 1] == t[|t| - 1];
    if NewestOn(m, followSymlink, t, seen, s) { NewestFurther(m, followSymlink, v, t, from, seen, s); }
  }

  /** Two candidates of the same length are the same directory. */
  lemma {:induction false} FollowsUnique(m: Snapshot, v: Visit, followSymlink: bool, q: string, r: string)
    requires Follows(m, v, followSymlink, q) && Follows(m, v, followSymlink, r)
    ensures q == r
  {
    UnderLinear(q, r, v.path);
  }

  lemma {:induction false} LinkIsFollowed(m: Snapshot, v: Visit, followSymlink: bool, q: string)
    requires Follows(m, v, followSymlink, q)
    ensures AtLink(m, followSymlink, v) <==> m[q].kind.Symlink?
  {
    if AtLink(m, followSymlink, v) {
      var r :| Follows(m, v, followSymlink, r) && m[r].kind.Symlink?;
      FollowsUnique(m, v, followSymlink, q, r);
    }
  }

  /** A trail from v that ends in the given way. */
  ghost predicate Resolves(
      m: Snapshot, followSymlink: bool, v: Visit, links: nat, from: int, t: seq<Visit>, r: Resolution) {
    && r.Resolved? && Trail(m, followSymlink, t) && t[0] == v && t[|t| - 1].path == r.path
    && Ends(m, followSymlink, t, links, from, r.stamp)
  }

  /** Nothing is found. */
  lemma {:induction false} TrailStops(m: Snapshot, v: Visit, from: nat, links: nat, followSymlink: bool, s: int)
    requires links <= MAXSYMLINKS && Search(m, v.path, from, v.followReuse, followSymlink) == Nothing(s)
    ensures Resolves(m, followSymlink, v, links, from, [v], Resolved(v.path, s))
  {
    SearchExact(m, v, followSymlink, from);
    if !Overlong(m, v, followSymlink) { SingleNewest(m, followSymlink, v, from, s); }
  }

  /** One link too many is found. */
  lemma {:induction false} TrailRefused(
      m: Snapshot, v: Visit, from: nat, followSymlink: bool, q: string, seen: int)
    requires Search(m, v.path, from, v.followReuse, followSymlink) == Found(q, seen) && q in m && m[q].kind.Symlink?
    ensures Resolves(m, followSymlink, v, MAXSYMLINKS, from, [v], Resolved(v.path, ELOOP))
  {
    SearchExact(m, v, followSymlink, from);
    LinkIsFollowed(m, v, followSymlink, q);
  }

  /** A mapping is found and followed. */
  lemma {:induction false} TrailGoesOn(m: Snapshot, v: Visit, from: nat, links: nat, followSymlink: bool, q: string,
      seen: int, t: seq<Visit>, r: Resolution)
    requires Search(m, v.path, from, v.followReuse, followSymlink) == Found(q, seen) && q in m && |q| <= |v.path|
    requires Resolves(m, followSymlink, Visit(m[q].target + v.path[|q|..], !m[q].kind.Move?),
      if m[q].kind.Symlink? then links + 1 else links, seen, t, r)
    ensures Resolves(m, followSymlink, v, links, from, [v] + t, r)
  {
    SearchExact(m, v, followSymlink, from);
    LinkIsFollowed(m, v, followSymlink, q);
    assert Hop(m, followSymlink, v, t[0]);
    TrailFurther(m, followSymlink, v, t, links, from, seen, r.stamp);
    assert ([v] + t)[|t|] == t[|t| - 1];
  }

  lemma {:induction false} HopsTrail(
      m: Snapshot, v: Visit, from: nat, links: nat, followSymlink: bool, limit: nat) returns (t: seq<Visit>)
    requires links <= MAXSYMLINKS && Hops(m, v.path, from, links, v.followReuse, followSymlink, limit).Resolved?
    ensures Resolves(m, followSymlink, v, links, from, t,
      Hops(m, v.path, from, links, v.followReuse, followSymlink, limit))
    ensures |t| <= limit + 1
    decreases limit, 1
  {
    SearchFindsDirectory(m, v.path, from, v.followReuse, followSymlink);
    match Search(m, v.path, from, v.followReuse, followSymlink)
    case Nothing(seen) =>
      t := [v];
      TrailStops(m, v, from, links, followSymlink, seen);
    case Found(q, seen) =>
      if m[q].kind.Symlink? && links == MAXSYMLINKS {
        t := [v];
        TrailRefused(m, v, from, followSymlink, q, seen);
      } else {
        t := TrailFound(m, v, from, links, followSymlink, limit, q, seen);
      }
  }

  lemma {:induction false} HopsNext(m: Snapshot, v: Visit, from: nat, links: nat, followSymlink: bool, limit: nat,
      q: string, seen: int)
    requires links <= MAXSYMLINKS && Hops(m, v.path, from, links, v.followReuse, followSymlink, limit).Resolved?
    requires Search(m, v.path, from, v.followReuse, followSymlink) == Found(q, seen)
    requires q in m && |q| <= |v.path| && (m[q].kind.Symlink? ==> links < MAXSYMLINKS)
    ensures limit > 0 && seen >= 0
    ensures Hops(m, v.path, from, links, v.followReuse, followSymlink, limit)
      == Hops(m, m[q].target + v.path[|q|..], seen, if m[q].kind.Symlink? then links + 1 else links, !m[q].kind.Move?,
        followSymlink, limit - 1)
  {
    SearchExact(m, v, followSymlink, from);
  }

  lemma {:induction false} TrailFound(m: Snapshot, v: Visit, from: nat, links: nat, followSymlink: bool, limit: nat,
      q: string, seen: int) returns (t: seq<Visit>)
    requires links <= MAXSYMLINKS && Hops(m, v.path, from, links, v.followReuse, followSymlink, limit).Resolved?
    requires Search(m, v.path, from, v.followReuse, followSymlink) == Found(q, seen)
    requires q in m && |q| <= |v.path| && (m[q].kind.Symlink? ==> links < MAXSYMLINKS)
    ensures Resolves(m, followSymlink, v, links, from, t,
      Hops(m, v.path, from, links, v.followReuse, followSymlink, limit))
    ensures |t| <= limit + 1
    decreases limit, 0
  {
    var next := Visit(m[q].target + v.path[|q|..], !m[q].kind.Move?);
    var links' := if m[q].kind.Symlink? then links + 1 else links;
    HopsNext(m, v, from, links, followSymlink, limit, q, seen);
    var rest := HopsTrail(m, next, seen, links', followSymlink, limit - 1);
    t := [v] + rest;
    TrailGoesOn(m, v, from, links, followSymlink, q, seen, rest,
      Hops(m, next.path, seen, links', next.followReuse, followSymlink, limit - 1));
  }

  /** toSystemPath on every map on which it ends: it follows, from the decoded path on, the longest directory that is
    mapped, until nothing is, and returns the newest timestamp of all entries it looked at, 0 if there is none; unless
    the path or a name is too long, or there are too many links. */
  lemma {:induction false} ToSystemPathExact(m: Snapshot, userPath: string, lookup: bool, limit: nat)
    returns (t: seq<Visit>)
    requires |userPath| < PathCodec.NPOS && ToSystemPath(m, userPath, lookup, limit).Resolved?
    ensures
      var p, r := PathCodec.Decode(userPath), ToSystemPath(m, userPath, lookup, limit);
      if |p| > PATH_MAX then r == Resolved(p, ENAMETOOLONG) else Resolves(m, !lookup, Visit(p, true), 0, 0, t, r)
  {
    var p := PathCodec.Decode(userPath);
    t := [];
    if |p| <= PATH_MAX { t := HopsTrail(m, Visit(p, true), 0, 0, !lookup, limit); }
  }

  // ---------------------------------------------------------------------------------------------
  // The trail determines the outcome
  // ---------------------------------------------------------------------------------------------

  /** A trail may not go on from here. */
  ghost predicate Stops(m: Snapshot, followSymlink: bool, v: Visit, links: nat) {
    || Overlong(m, v, followSymlink) || (AtLink(m, followSymlink, v) && links == MAXSYMLINKS)
    || forall q :: !Candidate(m, v, followSymlink, q)
  }

  ghost function LinksAfter(m: Snapshot, followSymlink: bool, v: Visit, links: nat): nat {
    links + if AtLink(m, followSymlink, v) then 1 else 0
  }

  /** A trail that goes as far as it may. */
  ghost predicate Whole(m: Snapshot, followSymlink: bool, t: seq<Visit>, links: nat)
    decreases |t|
  {
    && t != [] && links <= MAXSYMLINKS
    && (|t| == 1 ==> Stops(m, followSymlink, t[0], links))
    && (|t| > 1 ==>
      && Hop(m, followSymlink, t[0], t[1])
      && Whole(m, followSymlink, t[1..], LinksAfter(m, followSymlink, t[0], links)))
  }

  /** A trail does not stop where it may go on. */
  lemma {:induction false} GoesOn(m: Snapshot, followSymlink: bool, v: Visit, links: nat, w: Visit)
    requires Stops(m, followSymlink, v, links) && Hop(m, followSymlink, v, w)
    ensures AtLink(m, followSymlink, v) && links == MAXSYMLINKS
  {
    var q :| Follows(m, v, followSymlink, q) && w == Visit(m[q].target + v.path[|q|..], !m[q].kind.Move?);
    assert Candidate(m, v, followSymlink, q);
  }

  lemma {:induction false} HopUnique(m: Snapshot, followSymlink: bool, a: Visit, b: Visit, c: Visit)
    requires Hop(m, followSymlink, a, b) && Hop(m, followSymlink, a, c)
    ensures b == c
  {
    var q :| Follows(m, a, followSymlink, q) && b == Visit(m[q].target + a.path[|q|..], !m[q].kind.Move?);
    var r :| Follows(m, a, followSymlink, r) && c == Visit(m[r].target + a.path[|r|..], !m[r].kind.Move?);
    FollowsUnique(m, a, followSymlink, q, r);
  }

  lemma {:induction false} BothSingle(m: Snapshot, followSymlink: bool, t: seq<Visit>, t': seq<Visit>, links: nat)
    requires Whole(m, followSymlink, t, links) && Whole(m, followSymlink, t', links) && t[0] == t'[0] && |t| == 1
    ensures |t'| == 1
  {
    if |t'| > 1 { GoesOn(m, followSymlink, t[0], links, t'[1]); }
  }

  lemma {:induction false} TrailUnique(
      m: Snapshot, followSymlink: bool, t: seq<Visit>, t': seq<Visit>, links: nat)
    requires Whole(m, followSymlink, t, links) && Whole(m, followSymlink, t', links) && t[0] == t'[0]
    ensures t == t'
    decreases |t|
  {
    if |t| == 1 {
      BothSingle(m, followSymlink, t, t', links);
    } else if |t'| == 1 {
      BothSingle(m, followSymlink, t', t, links);
    } else {
      HopUnique(m, followSymlink, t[0], t[1], t'[1]);
      TrailUnique(m, followSymlink, t[1..], t'[1..], LinksAfter(m, followSymlink, t[0], links));
      assert t == [t[0]] + t[1..] && t' == [t'[0]] + t'[1..];
    }
  }

  lemma {:induction false} FoundIsHop(
      m: Snapshot, v: Visit, from: nat, followSymlink: bool, q: string, seen: int)
    requires Search(m, v.path, from, v.followReuse, followSymlink) == Found(q, seen)
    ensures q in m && |q| <= |v.path| && seen >= 0
    ensures Hop(m, followSymlink, v, Visit(m[q].target + v.path[|q|..], !m[q].kind.Move?))
    ensures AtLink(m, followSymlink, v) <==> m[q].kind.Symlink?
  {
    SearchExact(m, v, followSymlink, from);
    LinkIsFollowed(m, v, followSymlink, q);
  }

  /** As many remaps as a whole trail has suffice. */
  lemma {:induction false} WholeEnds(
      m: Snapshot, t: seq<Visit>, from: nat, links: nat, followSymlink: bool, limit: nat)
    requires Whole(m, followSymlink, t, links) && links <= MAXSYMLINKS && |t| <= limit + 1
    ensures Finishes(m, t[0], from, links, followSymlink, limit)
    decreases limit
  {
    var seen, links' := WholeStep(m, t, from, links, followSymlink, limit);
    if !Finishes(m, t[0], from, links, followSymlink, limit) {
      WholeEnds(m, t[1..], seen, links', followSymlink, limit - 1);
    }
  }

  ghost predicate Finishes(m: Snapshot, v: Visit, from: int, links: nat, followSymlink: bool, limit: nat) {
    links <= MAXSYMLINKS && Hops(m, v.path, from, links, v.followReuse, followSymlink, limit).Resolved?
  }

  lemma {:induction false} WholeStep(
      m: Snapshot, t: seq<Visit>, from: nat, links: nat, followSymlink: bool, limit: nat)
    returns (seen: nat, links': nat)
    requires Whole(m, followSymlink, t, links) && links <= MAXSYMLINKS && |t| <= limit + 1
    ensures !Finishes(m, t[0], from, links, followSymlink, limit) ==>
      && |t| > 1 && limit > 0 && links' <= MAXSYMLINKS && Whole(m, followSymlink, t[1..], links')
      && !Finishes(m, t[1..][0], seen, links', followSymlink, limit - 1)
  {
    var v := t[0];
    var found := Search(m, v.path, from, v.followReuse, followSymlink);
    SearchFindsDirectory(m, v.path, from, v.followReuse, followSymlink);
    seen, links' := 0, 0;
    if found.Nothing? || (m[found.path].kind.Symlink? && links == MAXSYMLINKS) {
      HopsHere(m, v, from, links, followSymlink, limit);
    } else {
      var q := found.path;
      WholeGoesOn(m, t, from, links, followSymlink, q, found.stamp);
      seen, links' := found.stamp, if m[q].kind.Symlink? then links + 1 else links;
      HopsThere(m, v, from, links, followSymlink, limit, q, seen, t[1], links');
    }
  }

  lemma {:induction false} HopsHere(
      m: Snapshot, v: Visit, from: nat, links: nat, followSymlink: bool, limit: nat)
    requires links <= MAXSYMLINKS
    requires
      var found := Search(m, v.path, from, v.followReuse, followSymlink);
      found.Found? ==> found.path in m && m[found.path].kind.Symlink? && links == MAXSYMLINKS
    ensures Hops(m, v.path, from, links, v.followReuse, followSymlink, limit).Resolved?
  {}

  lemma {:induction false} HopsThere(m: Snapshot, v: Visit, from: nat, links: nat, followSymlink: bool, limit: nat,
      q: string, seen: int, next: Visit, links': nat)
    requires links <= MAXSYMLINKS && limit > 0 && q in m && |q| <= |v.path| && links' <= MAXSYMLINKS
    requires Search(m, v.path, from, v.followReuse, followSymlink) == Found(q, seen)
    requires links' == if m[q].kind.Symlink? then links + 1 else links
    requires next == Visit(m[q].target + v.path[|q|..], !m[q].kind.Move?)
    ensures Hops(m, v.path, from, links, v.followReuse, followSymlink, limit)
      == Hops(m, next.path, seen, links', next.followReuse, followSymlink, limit - 1)
  {}

  /** A whole trail follows what the search finds. */
  lemma {:induction false} WholeGoesOn(
      m: Snapshot, t: seq<Visit>, from: nat, links: nat, followSymlink: bool, q: string, seen: int)
    requires Whole(m, followSymlink, t, links) && links <= MAXSYMLINKS && q in m && |q| <= |t[0].path|
    requires Search(m, t[0].path, from, t[0].followReuse, followSymlink) == Found(q, seen)
    requires !(m[q].kind.Symlink? && links == MAXSYMLINKS)
    ensures |t| > 1 && seen >= 0 && t[1] == Visit(m[q].target + t[0].path[|q|..], !m[q].kind.Move?)
    ensures Whole(m, followSymlink, t[1..], if m[q].kind.Symlink? then links + 1 else links)
  {
    var v, next := t[0], Visit(m[q].target + t[0].path[|q|..], !m[q].kind.Move?);
    FoundIsHop(m, v, from, followSymlink, q, seen);
    if |t| == 1 { GoesOn(m, followSymlink, v, links, next); }
    HopUnique(m, followSymlink, v, next, t[1]);
  }

  lemma {:induction false} NewestUnique(m: Snapshot, followSymlink: bool, t: seq<Visit>, from: int, s: int, s': int)
    requires NewestOn(m, followSymlink, t, from, s) && NewestOn(m, followSymlink, t, from, s')
    ensures s == s'
  {}

  lemma {:induction false} TrailWhole(m: Snapshot, followSymlink: bool, t: seq<Visit>, links: nat)
    requires Trail(m, followSymlink, t) && links + Links(m, followSymlink, t) <= MAXSYMLINKS
    requires Stops(m, followSymlink, t[|t| - 1], links + Links(m, followSymlink, t))
    ensures Whole(m, followSymlink, t, links)
    decreases |t|
  {
    if |t| > 1 {
      assert t[1..][|t| - 2] == t[|t| - 1];
      TrailWhole(m, followSymlink, t[1..], LinksAfter(m, followSymlink, t[0], links));
    }
  }

  lemma {:induction false} ResolvesWhole(
      m: Snapshot, followSymlink: bool, v: Visit, links: nat, from: int, t: seq<Visit>, r: Resolution)
    requires Resolves(m, followSymlink, v, links, from, t, r)
    ensures Whole(m, followSymlink, t, links)
  {
    TrailWhole(m, followSymlink, t, links);
  }

  lemma {:induction false} ResolvesSame(
      m: Snapshot, followSymlink: bool, v: Visit, links: nat, from: int, t: seq<Visit>, r: Resolution, r': Resolution)
    requires Resolves(m, followSymlink, v, links, from, t, r) && Resolves(m, followSymlink, v, links, from, t, r')
    ensures r == r'
  {
    if NewestOn(m, followSymlink, t, from, r.stamp) && NewestOn(m, followSymlink, t, from, r'.stamp) {
      NewestUnique(m, followSymlink, t, from, r.stamp, r'.stamp);
    }
  }

  /** Conversely, where a trail leads is what the resolution returns. */
  lemma {:induction false} TrailDecides(m: Snapshot, v: Visit, from: nat, links: nat, followSymlink: bool, limit: nat,
      t: seq<Visit>, r: Resolution)
    requires links <= MAXSYMLINKS && Resolves(m, followSymlink, v, links, from, t, r) && |t| <= limit + 1
    ensures Hops(m, v.path, from, links, v.followReuse, followSymlink, limit) == r
  {
    ResolvesWhole(m, followSymlink, v, links, from, t, r);
    WholeEnds(m, t, from, links, followSymlink, limit);
    var t' := HopsTrail(m, v, from, links, followSymlink, limit);
    var r' := Hops(m, v.path, from, links, v.followReuse, followSymlink, limit);
    ResolvesWhole(m, followSymlink, v, links, from, t', r');
    TrailUnique(m, followSymlink, t, t', links);
    ResolvesSame(m, followSymlink, v, links, from, t, r, r');
  }
}
