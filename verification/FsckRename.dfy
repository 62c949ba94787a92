/** Crash recovery of renames: the steps of renaming a regular file, and the file-system check that rolls an interrupted
  rename back.

  Directories are named by their path with a trailing slash; a metadata key is a directory followed by a name.
 */
module FsckRename {
  import opened Prelude
  import opened KeyOrder
  import opened DirectoryListing
  import PathMap

  datatype Md = Md(inode: nat, ctime: nat, rest: string)

  /** Directory entries and metadata keys. */
  datatype Names = Names(entries: map<string, set<string>>, meta: map<string, Md>)

  /** A file moved to a new name in a directory. */
  datatype Move = Move(from: string, dir: string, name: string) {
    function To(): string { dir + name }
    function FromDir(): string { DirOf(from) }
    function FromName(): string { NameOf(from) }
    function Recovery(): string { name + RECOVERY + from }
  }

  const RECOVERY := "|recovery|"

  function DirOf(path: string): string {
    path[..PathMap.LastSlash(path) + 1]
  }

  function NameOf(path: string): string {
    path[PathMap.LastSlash(path) + 1..]
  }

  predicate NoBar(s: string) {
    forall i :: 0 <= i < |s| ==> s[i] != '|'
  }

  predicate NoSlash(s: string) {
    forall i :: 0 <= i < |s| ==> s[i] != '/'
  }

  const SCAN_END := 254 as char

  predicate EntryName(n: string) {
    n != "" && n[0] < SCAN_END && NoBar(n) && NoSlash(n)
  }

  function Added(ns: Names, dir: string, n: string): Names
    requires dir in ns.entries
  {
    ns.(entries := ns.entries[dir := ns.entries[dir] + {n}])
  }

  function Dropped(ns: Names, dir: string, n: string): Names
    requires dir in ns.entries
  {
    ns.(entries := ns.entries[dir := ns.entries[dir] - {n}])
  }

  /** A rename of an existing regular file to a name that is not in use; other directory content is arbitrary. */
  ghost predicate Ready(pre: Names, mv: Move) {
    && NoBar(mv.from) && PathMap.LastSlash(mv.from) >= 0 && EntryName(mv.name)
    && mv.dir != "" && mv.dir[|mv.dir| - 1] == '/'
    && mv.dir in pre.entries && mv.FromDir() in pre.entries && mv.FromName() in pre.entries[mv.FromDir()]
    && EntryName(mv.FromName())
    && mv.from in pre.meta && mv.To() !in pre.meta && mv.name !in pre.entries[mv.dir]
    && (forall p :: p in pre.meta ==> NoBar(p))
    && (forall n :: n in pre.entries[mv.dir] ==> EntryName(n))
  }

  /** The first k steps of a rename: the new entry, the recovery entry, the old entry, the new key, the old key, the
    recovery entry again. */
  function Renamed(pre: Names, mv: Move, ctime: nat, k: nat): (r: Names)
    requires mv.dir in pre.entries && mv.FromDir() in pre.entries && mv.from in pre.meta
    ensures r.entries.Keys == pre.entries.Keys
  {
    if k == 0 then pre
    else
      var ns := Renamed(pre, mv, ctime, k - 1);
      if k == 1 then Added(ns, mv.dir, mv.name)
      else if k == 2 then Added(ns, mv.dir, mv.Recovery())
      else if k == 3 then Dropped(ns, mv.FromDir(), mv.FromName())
      else if k == 4 then ns.(meta := ns.meta[mv.To() := pre.meta[mv.from].(ctime := ctime)])
      else if k == 5 then ns.(meta := ns.meta - {mv.from})
      else if k == 6 then Dropped(ns, mv.dir, mv.Recovery())
      else ns
  }

  lemma {:induction false} RenamedLast(pre: Names, mv: Move, ctime: nat, k: nat)
    requires mv.dir in pre.entries && mv.FromDir() in pre.entries && mv.from in pre.meta
    ensures k >= 6 ==> Renamed(pre, mv, ctime, k) == Renamed(pre, mv, ctime, 6)
  {
    if k > 6 { RenamedLast(pre, mv, ctime, k - 1); }
  }

  /** A rename that ran to its end: the old name and its key are gone, the new ones are there with the file, the
    recovery entry has gone again, and nothing else changed. */
  lemma {:induction false} RenameCompletes(pre: Names, mv: Move, ctime: nat, k: nat)
    requires Ready(pre, mv) && k >= 6
    ensures
      var r := Renamed(pre, mv, ctime, k);
      && r.entries.Keys == pre.entries.Keys
      && (forall d, n :: d in pre.entries ==>
            (n in r.entries[d] <==>
              (n in pre.entries[d] && !(d == mv.FromDir() && n == mv.FromName())) || (d == mv.dir && n == mv.name)))
      && (forall p :: p in r.meta <==> (p in pre.meta && p != mv.from) || p == mv.To())
      && (forall p :: p in pre.meta && p != mv.from ==> p in r.meta && r.meta[p] == pre.meta[p])
      && r.meta[mv.To()] == pre.meta[mv.from].(ctime := ctime)
  {
    RenamedLast(pre, mv, ctime, k);
    NamesDiffer(mv);
    OwnPaths(mv);
    var r2 := Renamed(pre, mv, ctime, 2);
    assert Renamed(pre, mv, ctime, 1) == Added(pre, mv.dir, mv.name);
    assert r2 == Added(Added(pre, mv.dir, mv.name), mv.dir, mv.Recovery());
    var r3 := Renamed(pre, mv, ctime, 3);
    assert r3 == Dropped(r2, mv.FromDir(), mv.FromName());
    var r4 := Renamed(pre, mv, ctime, 4);
    assert r4 == r3.(meta := r3.meta[mv.To() := pre.meta[mv.from].(ctime := ctime)]);
    var r5 := Renamed(pre, mv, ctime, 5);
    assert r5 == r4.(meta := r4.meta - {mv.from});
    assert Renamed(pre, mv, ctime, 6) == Dropped(r5, mv.dir, mv.Recovery());
    assert mv.Recovery() !in pre.entries[mv.dir];
  }

  /** Equal up to the time of the last status change. */
  predicate SameFile(a: Md, b: Md) {
    a.inode == b.inode && a.rest == b.rest
  }

  // ---------------------------------------------------------------------------------------------
  // Interrupted and restored renames
  // ---------------------------------------------------------------------------------------------

  /** Everything that does not belong to the renamed file. */
  ghost predicate OthersKept(pre: Names, mv: Move, s: Names) {
    && s.entries.Keys == pre.entries.Keys
    && mv.dir in s.entries && mv.FromDir() in s.entries
    && (forall d :: d in pre.entries && d != mv.dir && d != mv.FromDir() ==> s.entries[d] == pre.entries[d])
    && (forall p :: p != mv.from && p != mv.To() ==> (p in s.meta <==> p in pre.meta))
    && (forall p :: p != mv.from && p != mv.To() && p in s.meta ==> s.meta[p] == pre.meta[p])
    && (mv.FromDir() != mv.dir ==>
        forall n :: n != mv.FromName() ==> (n in s.entries[mv.FromDir()] <==> n in pre.entries[mv.FromDir()]))
  }

  ghost predicate Own(mv: Move, n: string) {
    n == mv.name || n == mv.Recovery() || (mv.FromDir() == mv.dir && n == mv.FromName())
  }

  /** In the checked directory, nothing was added and only entries without a file may be missing. */
  ghost predicate DirectoryKept(pre: Names, mv: Move, s: Names)
    requires mv.dir in s.entries && mv.dir in pre.entries
  {
    forall n :: !Own(mv, n) ==>
      && (n in s.entries[mv.dir] ==> n in pre.entries[mv.dir])
      && (n in pre.entries[mv.dir] && mv.dir + n in pre.meta ==> n in s.entries[mv.dir])
  }

  /** The renamed file exists under one of its names; without a recovery entry it is in its old place. */
  ghost predicate FileKept(pre: Names, mv: Move, s: Names)
    requires mv.from in pre.meta && mv.dir in s.entries && mv.FromDir() in s.entries
  {
    && (mv.from in s.meta ==> SameFile(s.meta[mv.from], pre.meta[mv.from]))
    && (mv.To() in s.meta ==> SameFile(s.meta[mv.To()], pre.meta[mv.from]))
    && if mv.Recovery() in s.entries[mv.dir] then mv.from in s.meta || mv.To() in s.meta
       else mv.from in s.meta && mv.To() !in s.meta && mv.FromName() in s.entries[mv.FromDir()]
  }

  ghost predicate Interrupted(pre: Names, mv: Move, s: Names) {
    Ready(pre, mv) && OthersKept(pre, mv, s) && DirectoryKept(pre, mv, s) && FileKept(pre, mv, s)
  }

  /** The names before the rename, short of entries in the checked directory that had no file. */
  ghost predicate Restored(pre: Names, mv: Move, s: Names) {
    && s.entries.Keys == pre.entries.Keys && mv.dir in pre.entries && mv.from in pre.meta
    && s.entries[mv.dir] == (set n | n in pre.entries[mv.dir] && mv.dir + n in pre.meta)
    && (forall d :: d in pre.entries && d != mv.dir ==> s.entries[d] == pre.entries[d])
    && s.meta.Keys == pre.meta.Keys
    && (forall p :: p in pre.meta && p != mv.from ==> s.meta[p] == pre.meta[p])
    && SameFile(s.meta[mv.from], pre.meta[mv.from])
  }

  // ---------------------------------------------------------------------------------------------
  // Parsing
  // ---------------------------------------------------------------------------------------------

  function LastBar(s: string): (r: int)
    ensures -1 <= r < |s| && (r >= 0 ==> s[r] == '|')
    ensures forall i :: r < i < |s| ==> s[i] != '|'
  {
    if s == "" then -1 else if s[|s| - 1] == '|' then |s| - 1 else LastBar(s[..|s| - 1])
  }

  /** The recovery entry names the new name and the old path. */
  lemma {:induction false} RecoveryParses(mv: Move)
    requires NoBar(mv.from) && NoBar(mv.name)
    ensures
      var e := mv.Recovery();
      && FirstBar(e) == |mv.name| < |e| && e[..FirstBar(e)] == mv.name
      && e[LastBar(e) + 1..] == mv.from
  {
    var e := mv.Recovery();
    assert e[|mv.name|] == '|';
    assert forall i :: 0 <= i < |mv.name| ==> e[i] == mv.name[i];
    var last := |mv.name| + |RECOVERY| - 1;
    assert e[last] == '|';
    assert forall i :: last < i < |e| ==> e[i] == mv.from[i - last - 1];
  }

  lemma {:induction false} PathSplits(dir: string, n: string)
    requires dir != "" && dir[|dir| - 1] == '/' && NoSlash(n)
    ensures DirOf(dir + n) == dir && NameOf(dir + n) == n
  {
    var p := dir + n;
    assert p[|dir| - 1] == '/';
    assert forall i :: |dir| <= i < |p| ==> p[i] == n[i - |dir|];
  }

  lemma {:induction false} OwnPaths(mv: Move)
    requires PathMap.LastSlash(mv.from) >= 0
    ensures mv.from == mv.FromDir() + mv.FromName()
  {}

  // ---------------------------------------------------------------------------------------------
  // Crashing and repairing
  // ---------------------------------------------------------------------------------------------

  lemma {:induction false} NamesDiffer(mv: Move)
    requires NoBar(mv.name) && NoBar(mv.from)
    ensures mv.name != mv.Recovery() && !NoBar(mv.Recovery()) && mv.FromName() != mv.Recovery()
  {
    assert mv.Recovery()[|mv.name|] == '|';
  }

  lemma {:induction false} EntryStepsInterrupt(pre: Names, mv: Move, ctime: nat, k: nat)
    requires Ready(pre, mv) && k <= 3
    ensures Interrupted(pre, mv, Renamed(pre, mv, ctime, k)) && Renamed(pre, mv, ctime, k).meta == pre.meta
    ensures k >= 2 ==> mv.Recovery() in Renamed(pre, mv, ctime, k).entries[mv.dir]
    decreases k
  {
    NamesDiffer(mv);
    if k > 0 { EntryStepsInterrupt(pre, mv, ctime, k - 1); }
  }

  /** Wherever a rename is cut off before its recovery entry is removed, it is interrupted. */
  lemma {:induction false} CrashInterrupts(pre: Names, mv: Move, ctime: nat, k: nat)
    requires Ready(pre, mv) && k <= 5
    ensures Interrupted(pre, mv, Renamed(pre, mv, ctime, k))
  {
    if k <= 3 {
      EntryStepsInterrupt(pre, mv, ctime, k);
    } else {
      EntryStepsInterrupt(pre, mv, ctime, 3);
      var n3, n4 := Renamed(pre, mv, ctime, 3), Renamed(pre, mv, ctime, 4);
      assert n4.entries == n3.entries && n4.meta == n3.meta[mv.To() := pre.meta[mv.from].(ctime := ctime)];
      assert Renamed(pre, mv, ctime, 5) == n4.(meta := n4.meta - {mv.from});
    }
  }

  lemma {:induction false} BarMeansRecovery(pre: Names, mv: Move, s: Names, n: string)
    requires Interrupted(pre, mv, s) && n in s.entries[mv.dir]
    ensures n == mv.Recovery() || EntryName(n)
  {}

  /** Other entries are entries of other files. */
  lemma {:induction false} OtherPaths(pre: Names, mv: Move, n: string)
    requires Ready(pre, mv) && EntryName(n) && !Own(mv, n)
    ensures mv.dir + n != mv.from && mv.dir + n != mv.To()
  {
    PathSplits(mv.dir, n);
    PathSplits(mv.dir, mv.name);
  }

  lemma {:induction false} DropKeepsFile(pre: Names, mv: Move, s: Names, n: string)
    requires Interrupted(pre, mv, s) && EntryName(n) && mv.dir + n !in s.meta
    ensures FileKept(pre, mv, Dropped(s, mv.dir, n))
  {
    NamesDiffer(mv);
    OwnPaths(mv);
  }

  lemma {:induction false} DropKeepsDirectory(pre: Names, mv: Move, s: Names, n: string)
    requires Interrupted(pre, mv, s) && EntryName(n) && mv.dir + n !in s.meta
    ensures DirectoryKept(pre, mv, Dropped(s, mv.dir, n))
  {
    if !Own(mv, n) {
      OtherPaths(pre, mv, n);
      assert mv.dir + n !in pre.meta;
    }
  }

  /** Removing an entry without a file keeps a rename recoverable. */
  lemma {:induction false} DropKeeps(pre: Names, mv: Move, s: Names, n: string)
    requires Interrupted(pre, mv, s) && EntryName(n) && mv.dir + n !in s.meta
    ensures Interrupted(pre, mv, Dropped(s, mv.dir, n))
  {
    DropKeepsFile(pre, mv, s, n);
    DropKeepsDirectory(pre, mv, s, n);
  }

  /** The repair of an interrupted rename: key and entry go back to the old place. */
  function Recovered(s: Names, mv: Move): Names
    requires mv.dir in s.entries && mv.FromDir() in s.entries && (mv.from in s.meta || mv.To() in s.meta)
  {
    var back := if mv.from in s.meta then s.meta else s.meta[mv.from := s.meta[mv.To()]];
    var s1 := s.(meta := if mv.To() in s.meta then back - {mv.To()} else back);
    Dropped(Added(s1, mv.FromDir(), mv.FromName()), mv.dir, mv.Recovery())
  }

  lemma {:induction false} RecoverKeeps(pre: Names, mv: Move, s: Names)
    requires Interrupted(pre, mv, s) && mv.Recovery() in s.entries[mv.dir]
    ensures Interrupted(pre, mv, Recovered(s, mv)) && mv.Recovery() !in Recovered(s, mv).entries[mv.dir]
  {
    NamesDiffer(mv);
  }

  lemma {:induction false} CleanEntry(pre: Names, mv: Move, s: Names, n: string)
    requires Interrupted(pre, mv, s) && mv.Recovery() !in s.entries[mv.dir]
    requires n in s.entries[mv.dir] ==> mv.dir + n in s.meta
    ensures n in s.entries[mv.dir] <==> n in pre.entries[mv.dir] && mv.dir + n in pre.meta
  {
    NamesDiffer(mv);
    OwnPaths(mv);
    if (n in s.entries[mv.dir] || n in pre.entries[mv.dir]) && !Own(mv, n) {
      OtherPaths(pre, mv, n);
    }
  }

  /** When no entry of the directory lacks its file, the rename is rolled back. */
  lemma {:induction false} CleanIsRestored(pre: Names, mv: Move, s: Names)
    requires Interrupted(pre, mv, s) && forall n :: n in s.entries[mv.dir] ==> mv.dir + n in s.meta
    ensures Restored(pre, mv, s)
  {
    RecoveryHasNoKey(pre, mv, s);
    forall n ensures n in s.entries[mv.dir] <==> n in pre.entries[mv.dir] && mv.dir + n in pre.meta {
      CleanEntry(pre, mv, s, n);
    }
    assert s.entries[mv.dir] == (set n | n in pre.entries[mv.dir] && mv.dir + n in pre.meta);
    assert mv.FromDir() != mv.dir ==> s.entries[mv.FromDir()] == pre.entries[mv.FromDir()];
    assert s.meta.Keys == pre.meta.Keys;
  }

  lemma {:induction false} RecoveryHasNoKey(pre: Names, mv: Move, s: Names)
    requires Interrupted(pre, mv, s)
    ensures mv.dir + mv.Recovery() !in s.meta
  {
    var p := mv.dir + mv.Recovery();
    assert p[|mv.dir| + |mv.name|] == '|';
    assert !NoBar(p);
    PathSplits(mv.dir, mv.name);
    assert p != mv.To() by {
      assert |p| > |mv.To()|;
    }
  }

  // ---------------------------------------------------------------------------------------------
  // The check
  // ---------------------------------------------------------------------------------------------

  class Store {
    var entries: map<string, set<string>>
    var meta: map<string, Md>

    function State(): Names
      reads this
    {
      Names(entries, meta)
    }

    /** Renames a regular file; the client may crash after any number of store requests. */
    method RenameRegular(from: string, dir: string, name: string, ctime: nat, crash: nat)
      requires dir in entries && DirOf(from) in entries && from in meta
      modifies this
      ensures State() == Renamed(old(State()), Move(from, dir, name), ctime, crash)
    {
      ghost var pre, mv := State(), Move(from, dir, name);
      var md := meta[from];
      RenamedLast(pre, mv, ctime, crash);
      if crash == 0 { return; }
      entries := entries[dir := entries[dir] + {name}];
      assert State() == Renamed(pre, mv, ctime, 1);
      if crash == 1 { return; }
      entries := entries[dir := entries[dir] + {name + RECOVERY + from}];
      assert State() == Renamed(pre, mv, ctime, 2);
      if crash == 2 { return; }
      entries := entries[DirOf(from) := entries[DirOf(from)] - {NameOf(from)}];
      assert State() == Renamed(pre, mv, ctime, 3);
      if crash == 3 { return; }
      meta := meta[dir + name := md.(ctime := ctime)];
      assert State() == Renamed(pre, mv, ctime, 4);
      if crash == 4 { return; }
      meta := meta - {from};
      assert State() == Renamed(pre, mv, ctime, 5);
      if crash == 5 { return; }
      entries := entries[dir := entries[dir] - {name + RECOVERY + from}];
    }

    /** Pages through the directory's entries and stops at the first one without a file. */
    method ScanDirentries(dir: string) returns (entry: Option<string>)
      requires dir in entries
      ensures entry.Some? ==> entry.value in entries[dir] && dir + entry.value !in meta
      ensures entry.None? ==> forall n :: n in entries[dir] && n != "" && n[0] < SCAN_END ==> dir + n in meta
    {
      var hi := [SCAN_END];
      var keys := entries[dir];
      var page := KeyRange(keys, "", hi, PAGE);
      ghost var seen := page;
      FirstPaging(keys, "", hi, page);
      var bad := FirstWithout(dir, page);
      if bad.Some? { return bad; }
      while |page| == PAGE
        invariant Paging(keys, "", hi, seen, page)
        invariant forall k :: k in seen ==> dir + k in meta
        decreases |Range(keys, "", hi)| - |seen|, |page|
      {
        var start := page[|page| - 1];
        var next := KeyRange(keys, start, hi, PAGE);
        NextPaging(keys, "", hi, seen, page, next);
        page := next;
        bad := FirstWithout(dir, page);
        if bad.Some? { return bad; }
        seen := seen + page;
      }
      forall n | n in entries[dir] && n != "" && n[0] < SCAN_END ensures dir + n in meta {
        RangeHasPrefix("", SCAN_END, n);
        assert "" + [SCAN_END] == hi;
      }
      return None;
    }

    method FirstWithout(dir: string, page: seq<string>) returns (entry: Option<string>)
      requires dir in entries && forall k :: k in page ==> k in entries[dir]
      ensures entry.Some? ==> entry.value in entries[dir] && dir + entry.value !in meta
      ensures entry.None? ==> forall k :: k in page ==> dir + k in meta
    {
      for i := 0 to |page|
        invariant forall j :: 0 <= j < i ==> dir + page[j] in meta
      {
        if dir + page[i] !in meta {
          assert page[i] in page;
          return Some(page[i]);
        }
      }
      return None;
    }

    /** Reads the move out of the recovery entry and undoes it. */
    method RecoverRename(dir: string, entry: string, ghost mv: Move)
      requires mv.dir == dir && entry == mv.Recovery() && NoBar(mv.from) && NoBar(mv.name)
      requires dir in entries && mv.FromDir() in entries && (mv.from in meta || mv.To() in meta)
      modifies this
      ensures State() == Recovered(old(State()), mv)
    {
      RecoveryParses(mv);
      var origin := entry[LastBar(entry) + 1..];
      var target := dir + entry[..FirstBar(entry)];
      if origin !in meta { meta := meta[origin := meta[target]]; }
      if target in meta { meta := meta - {target}; }
      entries := entries[DirOf(origin) := entries[DirOf(origin)] + {NameOf(origin)}];
      entries := entries[dir := entries[dir] - {entry}];
    }

    /** Deals with an entry without a file: a recovery entry is carried out, any other is deleted. */
    method Repair(dir: string, entry: string, ghost pre: Names, ghost mv: Move)
      requires mv.dir == dir && Interrupted(pre, mv, State()) && entry in entries[dir] && dir + entry !in meta
      modifies this
      ensures Interrupted(pre, mv, State())
      ensures if entry == mv.Recovery() then mv.Recovery() !in entries[dir]
        else entries[dir] == old(entries[dir]) - {entry}
    {
      BarMeansRecovery(pre, mv, State(), entry);
      NamesDiffer(mv);
      if FirstBar(entry) < |entry| {
        RecoverKeeps(pre, mv, State());
        RecoverRename(dir, entry, mv);
      } else {
        DropKeeps(pre, mv, State(), entry);
        entries := entries[dir := entries[dir] - {entry}];
      }
    }

    /** A rename that crashed at any point is rolled back: entries and keys are those from before the rename, short of
      entries in the checked directory that had no file. */
    method FsckDirectory(dir: string, ghost pre: Names, ghost mv: Move)
      requires mv.dir == dir && Interrupted(pre, mv, State())
      modifies this
      ensures Restored(pre, mv, State())
    {
      var entry := ScanDirentries(dir);
      while entry.Some?
        invariant Interrupted(pre, mv, State())
        invariant entry.Some? ==> entry.value in entries[dir] && dir + entry.value !in meta
        invariant entry.None? ==> forall n :: n in entries[dir] && n != "" && n[0] < SCAN_END ==> dir + n in meta
        decreases mv.Recovery() in entries[dir], |entries[dir]|
      {
        Repair(dir, entry.value, pre, mv);
        entry := ScanDirentries(dir);
      }
      forall n | n in entries[dir] ensures dir + n in meta {
        EntriesAreScanned(pre, mv, State(), n);
      }
      CleanIsRestored(pre, mv, State());
    }
  }

  lemma {:induction false} EntriesAreScanned(pre: Names, mv: Move, s: Names, n: string)
    requires Interrupted(pre, mv, s) && n in s.entries[mv.dir]
    ensures n != "" && n[0] < SCAN_END
  {
    BarMeansRecovery(pre, mv, s, n);
    assert mv.Recovery()[0] == mv.name[0];
  }
}
