/** The path encoding of the I/O interception library and its inverse inside the file system.

  Everything below the mount point is flattened into one component, with ':' standing for '/', behind a
  virtual directory that spreads load. String positions are size_t values, so "not found" is the largest
  one and differences wrap around.
 */
module PathCodec {
  import Decimal

  const NPOS: nat := 0xFFFF_FFFF_FFFF_FFFF

  /** std::string::find_first_of for one character. */
  function Find(s: string, c: char, from: nat): (r: nat)
    requires |s| < NPOS
    ensures r == NPOS || (from <= r < |s| && s[r] == c)
    ensures forall i :: from <= i < r && i < |s| ==> s[i] != c
    decreases |s| - from
  {
    if from >= |s| then NPOS else if s[from] == c then from else Find(s, c, from + 1)
  }

  /** std::string::erase. */
  function Erase(s: string, pos: nat, n: nat): string
    requires pos <= |s|
  {
    if pos + n >= |s| then s[..pos] else s[..pos] + s[pos + n..]
  }

  /** The length of the inclusive span from begin to end, as size_t arithmetic computes it. */
  function Span(begin: nat, end: nat): nat {
    (end - begin + 1) % (NPOS + 1)
  }

  function Replaced(s: string, from: char, to: char): (r: string)
    ensures |r| == |s|
    ensures forall i :: 0 <= i < |s| ==> r[i] == if s[i] == from then to else s[i]
  {
    seq(|s|, i requires 0 <= i < |s| => if s[i] == from then to else s[i])
  }

  function TrimTrailing(s: string, c: char): string {
    if s == "" || s[|s| - 1] != c then s else TrimTrailing(s[..|s| - 1], c)
  }

  /** What the file system makes of a path it is handed. */
  function Decode(path: string): string
    requires |path| < NPOS
  {
    var pos := Find(path, ':', 0);
    if pos == NPOS then path
    else Replaced(Erase(path, pos, Span(pos, Find(path, '/', pos))), ':', '/')
  }

  method IoIntercept(path: string) returns (p: string)
    requires |path| < NPOS
    ensures p == Decode(path)
  {
    p := path;
    var pos := Find(p, ':', 0);
    if pos == NPOS { return; }
    var end := Find(p, '/', pos);
    p := Erase(p, pos, Span(pos, end));
    ghost var cut := p;
    pos := Find(p, ':', 0);
    while pos != NPOS
      invariant |p| == |cut|
      invariant pos == Find(p, ':', 0)
      invariant forall i :: 0 <= i < |p| ==> p[i] == cut[i] || (cut[i] == ':' && p[i] == '/')
      decreases |p| - (if pos == NPOS then |p| else pos)
    {
      ghost var before, at := p, pos;
      p := p[pos := '/'];
      pos := Find(p, ':', 0);
      assert pos == NPOS || at < pos;
    }
    assert p == Replaced(cut, ':', '/');
  }

  /** A path below the mount point, with the working directory's virtual directory removed if there is one. */
  function Cleaned(path: string, pos: nat): string
    requires |path| < NPOS - 1
  {
    var p := if |path| < pos then path + "/" else path;
    var clean := Find(p, ':', 0);
    if clean == NPOS then p else Erase(p, clean, Span(clean, Find(p, '/', pos)))
  }

  function VirtualDirectory(id: nat): string {
    ":" + Decimal.ToString(id) + ":/"
  }

  /** The encoded path; pos is the first position below the mount point, id the hash bucket. */
  function Encode(path: string, pos: nat, id: nat): string
    requires |path| < NPOS - 1 && pos <= |Cleaned(path, pos)|
  {
    var p := Cleaned(path, pos);
    TrimTrailing(p[..pos] + VirtualDirectory(id) + Replaced(p[pos..], '/', ':'), ':')
  }

  method Substitute(path: string, pos: nat, id: nat) returns (p: string)
    requires |path| + |VirtualDirectory(id)| < NPOS - 1 && pos <= |Cleaned(path, pos)|
    ensures p == Encode(path, pos, id)
  {
    p := path;
    if |p| < pos { p := p + "/"; }
    var clean := Find(p, ':', 0);
    if clean != NPOS {
      var end := Find(p, '/', pos);
      p := Erase(p, clean, Span(clean, end));
    }
    assert p == Cleaned(path, pos);
    var vdir := VirtualDirectory(id);
    p := p[..pos] + vdir + p[pos..];
    p := Flatten(p, pos + |vdir|);
    assert p == Cleaned(path, pos)[..pos] + vdir + Replaced(Cleaned(path, pos)[pos..], '/', ':');
    p := DropTrailing(p);
  }

  method DropTrailing(path: string) returns (p: string)
    ensures p == TrimTrailing(path, ':')
  {
    p := path;
    while p != "" && p[|p| - 1] == ':'
      invariant TrimTrailing(p, ':') == TrimTrailing(path, ':')
      decreases |p|
    {
      p := p[..|p| - 1];
    }
  }

  /** Turns every '/' from a position on into ':'. */
  method Flatten(path: string, from: nat) returns (p: string)
    requires from <= |path| < NPOS
    ensures p == path[..from] + Replaced(path[from..], '/', ':')
  {
    p := path;
    var pos := from;
    while pos != NPOS
      invariant |p| == |path| && (pos == NPOS || from <= pos <= |p|)
      invariant forall i :: 0 <= i < from ==> p[i] == path[i]
      invariant forall i :: from <= i < |p| ==>
        p[i] == if path[i] == '/' && (pos == NPOS || i < pos) then ':' else path[i]
      decreases if pos == NPOS then 0 else |p| - pos + 1
    {
      if pos < |p| && p[pos] == '/' { p := p[pos := ':']; }
      pos := Find(p, '/', pos + 1);
    }
  }

  // ---------------------------------------------------------------------------------------------
  // Round trip
  // ---------------------------------------------------------------------------------------------

  predicate NoColon(s: string) {
    ':' !in s
  }

  /** Trimming takes off exactly the trailing run of c. */
  lemma {:induction false} TrimTrailingExact(s: string, c: char)
    ensures
      var r := TrimTrailing(s, c);
      && r <= s
      && (r != "" ==> r[|r| - 1] != c)
      && (forall i :: |r| <= i < |s| ==> s[i] == c)
  {
    if s != "" && s[|s| - 1] == c {
      TrimTrailingExact(s[..|s| - 1], c);
    }
  }

  lemma {:induction false} TrimKeepsPrefix(a: string, b: string, c: char)
    requires a != "" && a[|a| - 1] != c
    ensures TrimTrailing(a + b, c) == a + TrimTrailing(b, c)
  {
    if b == "" {
      assert a + b == a;
    } else {
      assert (a + b)[..|a + b| - 1] == a + b[..|b| - 1];
      if b[|b| - 1] == c {
        TrimKeepsPrefix(a, b[..|b| - 1], c);
      }
    }
  }

  lemma {:induction false} TrimReplaced(s: string)
    ensures Replaced(TrimTrailing(Replaced(s, '/', ':'), ':'), ':', '/') == TrimTrailing(Replaced(s, ':', '/'), '/')
  {
    if s != "" {
      var r := s[..|s| - 1];
      assert Replaced(s, '/', ':')[..|s| - 1] == Replaced(r, '/', ':');
      assert Replaced(s, ':', '/')[..|s| - 1] == Replaced(r, ':', '/');
      TrimReplaced(r);
      if s[|s| - 1] != '/' && s[|s| - 1] != ':' {
        assert Replaced(Replaced(s, '/', ':'), ':', '/') == Replaced(s, ':', '/');
      }
    }
  }

  /** A component that starts with a colon, with the slash behind it. */
  predicate Virtual(v: string) {
    |v| > 1 && v[0] == ':' && v[|v| - 1] == '/' && forall i :: 0 <= i < |v| - 1 ==> v[i] != '/'
  }

  lemma {:induction false} VirtualDirectoryShape(id: nat)
    ensures Virtual(VirtualDirectory(id))
  {
    var digits := Decimal.ToString(id);
    forall i | 0 < i <= |digits| ensures VirtualDirectory(id)[i] != '/' {
      assert digits[i - 1] in digits;
      assert VirtualDirectory(id)[i] == digits[i - 1];
    }
  }

  lemma {:induction false} FindIs(s: string, c: char, from: nat, pos: nat)
    requires |s| < NPOS && from <= pos < |s| && s[pos] == c && forall i :: from <= i < pos ==> s[i] != c
    ensures Find(s, c, from) == pos
  {}

  /** Such a component is found by its first colon and the next slash, and taken out. */
  lemma {:induction false} CutVirtual(head: string, v: string, tail: string)
    requires NoColon(head) && Virtual(v) && |head| + |v| + |tail| < NPOS
    ensures
      var p := head + v + tail;
      && Find(p, ':', 0) == |head| && Find(p, '/', |head|) == |head| + |v| - 1
      && Span(|head|, |head| + |v| - 1) == |v| && Erase(p, |head|, |v|) == head + tail
  {
    var p := head + v + tail;
    assert forall i :: 0 <= i < |head| ==> p[i] == head[i] && head[i] in head;
    assert forall i :: |head| <= i < |head| + |v| ==> p[i] == v[i - |head|];
    FindIs(p, ':', 0, |head|);
    FindIs(p, '/', |head|, |head| + |v| - 1);
    assert p[..|head|] == head && p[|head| + |v|..] == tail;
  }

  /** Behind the virtual directory the file system finds the tail again, without trailing slashes. */
  lemma {:induction false} DecodeBehindVirtualDirectory(id: nat, flat: string)
    requires |VirtualDirectory(id)| + |flat| < NPOS - 2 && '/' !in flat
    ensures Decode("/" + VirtualDirectory(id) + flat) == "/" + Replaced(flat, ':', '/')
  {
    VirtualDirectoryShape(id);
    CutVirtual("/", VirtualDirectory(id), flat);
    assert Replaced("/" + flat, ':', '/') == "/" + Replaced(flat, ':', '/');
  }

  lemma {:induction false} EncodeForm(p: string, head: string, tail: string, vdir: string)
    requires p == head + tail && vdir != "" && vdir[|vdir| - 1] != ':'
    ensures TrimTrailing(p[..|head|] + vdir + Replaced(p[|head|..], '/', ':'), ':')
      == head + vdir + TrimTrailing(Replaced(tail, '/', ':'), ':')
  {
    assert p[..|head|] == head && p[|head|..] == tail;
    assert (head + vdir)[|head + vdir| - 1] == vdir[|vdir| - 1];
    TrimKeepsPrefix(head + vdir, Replaced(tail, '/', ':'), ':');
  }

  lemma {:induction false} DropMount(mount: string, vdir: string, flat: string)
    ensures mount <= mount + "/" + vdir + flat
    ensures (mount + "/" + vdir + flat)[|mount|..] == "/" + vdir + flat
  {
    assert mount + "/" + vdir + flat == mount + ("/" + vdir + flat);
  }

  /** Encoding what lies below the mount point and handing the result to the file system. */
  lemma {:induction false} EncodeDecodes(mount: string, tail: string, path: string, id: nat)
    requires |mount| + |tail| + |path| + |VirtualDirectory(id)| < NPOS - 8
    requires Cleaned(path, |mount| + 1) == mount + "/" + tail
    ensures Encodes(path, mount, id)
    ensures Decode(Encode(path, |mount| + 1, id)[|mount|..]) == "/" + TrimTrailing(Replaced(tail, ':', '/'), '/')
  {
    var flat := TrimTrailing(Replaced(tail, '/', ':'), ':');
    TrimTrailingExact(Replaced(tail, '/', ':'), ':');
    var vdir := VirtualDirectory(id);
    assert vdir[|vdir| - 1] == '/';
    EncodeForm(mount + "/" + tail, mount + "/", tail, vdir);
    DropMount(mount, vdir, flat);
    DecodeBehindVirtualDirectory(id, flat);
    TrimReplaced(tail);
  }

  /** A path without ':' comes back as it was, minus trailing slashes. */
  lemma {:induction false} RoundTrip(mount: string, rest: string, id: nat)
    requires NoColon(mount) && NoColon(rest)
    requires |mount| + |rest| < NPOS / 4 && |VirtualDirectory(id)| < NPOS / 4
    ensures
      var path := mount + "/" + rest;
      Encodes(path, mount, id) && Decode(Encode(path, |mount| + 1, id)[|mount|..]) == "/" + TrimTrailing(rest, '/')
  {
    var path := mount + "/" + rest;
    assert NoColon(path);
    EncodeDecodes(mount, rest, path, id);
    assert Replaced(rest, ':', '/') == rest;
  }

  /** The mount point itself comes back as "/". */
  lemma {:induction false} RoundTripMountPoint(mount: string, id: nat)
    requires NoColon(mount) && |mount| < NPOS / 4 && |VirtualDirectory(id)| < NPOS / 4
    ensures Encodes(mount, mount, id) && Decode(Encode(mount, |mount| + 1, id)[|mount|..]) == "/"
  {
    assert NoColon(mount + "/") && mount + "/" + "" == mount + "/";
    EncodeDecodes(mount, "", mount, id);
  }

  predicate Encodes(path: string, mount: string, id: nat) {
    && |path| < NPOS - 1
    && |mount| + 1 <= |Cleaned(path, |mount| + 1)|
    && mount <= Encode(path, |mount| + 1, id)
    && |Encode(path, |mount| + 1, id)| < NPOS
  }

  /** The virtual directory of an encoded working directory is taken out again. */
  lemma {:induction false} CleanedDirectory(mount: string, tail: string, path: string, id: nat)
    requires NoColon(mount) && |path| < NPOS - 1 && path == mount + "/" + VirtualDirectory(id) + tail
    ensures Cleaned(path, |mount| + 1) == mount + "/" + tail
  {
    VirtualDirectoryShape(id);
    assert NoColon(mount + "/");
    CutVirtual(mount + "/", VirtualDirectory(id), tail);
  }

  /** A relative path appended to a working directory that is itself encoded decodes to the full path. */
  lemma {:induction false} RoundTripFromEncodedDirectory(mount: string, dir: string, rel: string, id: nat, id': nat)
    requires NoColon(mount) && NoColon(dir) && NoColon(rel)
    requires |mount| + |dir| + |rel| < NPOS / 8 && |VirtualDirectory(id)| < NPOS / 8
      && |VirtualDirectory(id')| < NPOS / 8
    ensures
      var cwd := mount + "/" + VirtualDirectory(id) + Replaced(dir, '/', ':');
      var path := cwd + "/" + rel;
      && Encodes(path, mount, id')
      && Decode(Encode(path, |mount| + 1, id')[|mount|..]) == "/" + TrimTrailing(dir + "/" + rel, '/')
  {
    var flat := Replaced(dir, '/', ':');
    var base := mount + "/" + VirtualDirectory(id);
    var path := base + flat + "/" + rel;
    var tail := flat + "/" + rel;
    assert path == base + tail by { Regroup(base, flat, "/", rel); }
    CleanedDirectory(mount, tail, path, id);
    EncodeDecodes(mount, tail, path, id');
    Unflatten(dir, rel);
  }

  /** So does one appended to the encoded mount point. */
  lemma {:induction false} RoundTripFromEncodedMountPoint(mount: string, rel: string, id: nat, id': nat)
    requires NoColon(mount) && NoColon(rel)
    requires |mount| + |rel| < NPOS / 8 && |VirtualDirectory(id)| < NPOS / 8 && |VirtualDirectory(id')| < NPOS / 8
    ensures
      var cwd := mount + "/:" + Decimal.ToString(id) + ":";
      var path := cwd + "/" + rel;
      && Encodes(path, mount, id')
      && Decode(Encode(path, |mount| + 1, id')[|mount|..]) == "/" + TrimTrailing(rel, '/')
  {
    var path := mount + "/" + VirtualDirectory(id) + rel;
    assert mount + "/:" + Decimal.ToString(id) + ":" + "/" + rel == path;
    CleanedDirectory(mount, rel, path, id);
    EncodeDecodes(mount, rel, path, id');
    assert Replaced(rel, ':', '/') == rel;
  }

  lemma {:induction false} Unflatten(dir: string, rel: string)
    requires NoColon(dir) && NoColon(rel)
    ensures Replaced(Replaced(dir, '/', ':') + "/" + rel, ':', '/') == dir + "/" + rel
  {
    var tail := Replaced(dir, '/', ':') + "/" + rel;
    var full := dir + "/" + rel;
    forall i | 0 <= i < |full| ensures Replaced(tail, ':', '/')[i] == full[i] {
      if i < |dir| {
        assert tail[i] == Replaced(dir, '/', ':')[i] && dir[i] in dir;
      } else if i > |dir| {
        assert tail[i] == rel[i - |dir| - 1] && rel[i - |dir| - 1] in rel;
      }
    }
  }

  lemma {:induction false} Regroup(a: string, b: string, c: string, d: string)
    ensures a + b + c + d == a + (b + c + d)
  {
  }

  /** An encoded path is flat: behind the mount point and the virtual directory there is no slash. Paths in different
    hash buckets are in different directories. */
  lemma {:induction false} EncodedIsFlat(path: string, pos: nat, id: nat)
    requires |path| < NPOS - 1 && pos <= |Cleaned(path, pos)|
    ensures
      var e, n := Encode(path, pos, id), pos + |VirtualDirectory(id)|;
      && n <= |e| && e[..n] == Cleaned(path, pos)[..pos] + VirtualDirectory(id)
      && forall i :: n <= i < |e| ==> e[i] != '/'
  {
    var p := Cleaned(path, pos);
    var head, flat := p[..pos] + VirtualDirectory(id), Replaced(p[pos..], '/', ':');
    TrimKeepsPrefix(head, flat, ':');
    TrimTrailingExact(flat, ':');
    var e := Encode(path, pos, id);
    assert e == head + TrimTrailing(flat, ':');
    forall i | |head| <= i < |e| ensures e[i] != '/' {
      assert e[i] == flat[i - |head|];
    }
  }

  lemma {:induction false} BucketsDiffer(id: nat, id': nat)
    requires VirtualDirectory(id) == VirtualDirectory(id')
    ensures id == id'
  {
    var v, v' := VirtualDirectory(id), VirtualDirectory(id');
    assert v[1..|v| - 2] == Decimal.ToString(id) && v'[1..|v'| - 2] == Decimal.ToString(id');
    Decimal.ToStringInjective(id, id');
  }
}
