/** Listing a directory page by page, from one store or from the partitions its entries are spread over. */
module DirectoryListing {
  import opened KeyOrder

  const PAGE := 100

  /** The keys strictly between two keys. */
  function Range(keys: set<Key>, lo: Key, hi: Key): (r: set<Key>)
    ensures forall k :: k in r <==> k in keys && Less(lo, k) && Less(k, hi)
  {
    set k | k in keys && Within(k, lo, false, hi, false)
  }

  /** GetKeyRange: neither bound belongs to the range. */
  function KeyRange(keys: set<Key>, lo: Key, hi: Key, max: nat): seq<Key> {
    Page(keys, lo, false, hi, false, max)
  }

  lemma {:induction false} KeyRangeIsPrefix(keys: set<Key>, lo: Key, hi: Key, max: nat)
    ensures
      var r := KeyRange(keys, lo, hi, max);
      && Ascending(r) && |r| <= max
      && (forall k :: k in r ==> k in Range(keys, lo, hi))
      && (forall k :: k in Range(keys, lo, hi) && k !in r ==> |r| == max && (r != [] ==> Less(r[|r| - 1], k)))
  {
    PageIsPrefix(keys, lo, false, hi, false, max);
  }

  /** Being behind the first part of a range means being in it or being listed before. */
  lemma {:induction false} RangeSplits(keys: set<Key>, lo: Key, mid: Key, hi: Key, k: Key)
    requires Less(lo, mid)
    ensures k in Range(keys, lo, hi) && Less(mid, k) <==> k in Range(keys, mid, hi)
  {
    if Less(mid, k) { LessTransitive(lo, mid, k); }
  }

  lemma {:induction false} AscendingJoin(a: seq<Key>, b: seq<Key>)
    requires Ascending(a) && Ascending(b)
    requires a != [] ==> forall k :: k in b ==> Less(a[|a| - 1], k)
    ensures Ascending(a + b)
  {
    forall i, j | 0 <= i < j < |a + b| ensures Less((a + b)[i], (a + b)[j]) {
      if i < |a| <= j {
        assert (a + b)[j] in b;
        if i < |a| - 1 { LessTransitive(a[i], a[|a| - 1], b[j - |a|]); }
      }
    }
  }

  /** What has been listed so far: all keys of the range up to the last one listed. */
  ghost predicate Listed(keys: set<Key>, lo: Key, hi: Key, r: seq<Key>) {
    && Ascending(r)
    && (forall k :: k in r ==> k in Range(keys, lo, hi))
    && (r == [] || forall k :: k in Range(keys, lo, hi) && k !in r ==> Less(r[|r| - 1], k))
  }

  lemma {:induction false} NextPage(keys: set<Key>, lo: Key, hi: Key, r: seq<Key>, page: seq<Key>)
    requires Listed(keys, lo, hi, r)
    requires page == KeyRange(keys, if r == [] then lo else r[|r| - 1], hi, PAGE)
    ensures Listed(keys, lo, hi, r + page)
    ensures forall k :: k in Range(keys, lo, hi) && k !in r + page ==> |page| == PAGE
  {
    var mid := if r == [] then lo else r[|r| - 1];
    KeyRangeIsPrefix(keys, mid, hi, PAGE);
    if r != [] {
      assert r[|r| - 1] in r;
      forall k ensures k in Range(keys, lo, hi) && Less(mid, k) <==> k in Range(keys, mid, hi) {
        RangeSplits(keys, lo, mid, hi, k);
      }
    }
    AscendingJoin(r, page);
    forall k | k in Range(keys, lo, hi) && k !in r + page
      ensures |page| == PAGE && (r + page != [] ==> Less((r + page)[|r + page| - 1], k))
    {
      assert k !in r && k !in page;
      assert k in Range(keys, mid, hi);
    }
  }

  /** The state of a paging loop: what has been listed and the page that was listed last. */
  ghost predicate Paging(keys: set<Key>, lo: Key, hi: Key, r: seq<Key>, page: seq<Key>) {
    && Listed(keys, lo, hi, r)
    && (page != [] ==> r != [] && r[|r| - 1] == page[|page| - 1])
    && (|page| != PAGE ==> forall k :: k in Range(keys, lo, hi) ==> k in r)
  }

  lemma {:induction false} FirstPaging(keys: set<Key>, lo: Key, hi: Key, page: seq<Key>)
    requires page == KeyRange(keys, lo, hi, PAGE)
    ensures Paging(keys, lo, hi, page, page)
  {
    assert [] + page == page;
    NextPage(keys, lo, hi, [], page);
  }

  lemma {:induction false} NextPaging(keys: set<Key>, lo: Key, hi: Key, r: seq<Key>, page: seq<Key>, next: seq<Key>)
    requires Paging(keys, lo, hi, r, page) && |page| == PAGE && next == KeyRange(keys, page[|page| - 1], hi, PAGE)
    ensures Paging(keys, lo, hi, r + next, next) && |r| + |next| <= |Range(keys, lo, hi)|
  {
    NextPage(keys, lo, hi, r, next);
    ListedFits(keys, lo, hi, r + next);
  }

  lemma {:induction false} LastPaging(keys: set<Key>, lo: Key, hi: Key, r: seq<Key>, page: seq<Key>)
    requires Paging(keys, lo, hi, r, page) && |page| != PAGE
    ensures r == Sorted(Range(keys, lo, hi))
  {
    AscendingUnique(r, Sorted(Range(keys, lo, hi)));
  }

  /** The paging loop of a directory listing: every entry exactly once and in order, whatever the number of pages. */
  method List(keys: set<Key>, lo: Key, hi: Key) returns (r: seq<Key>)
    ensures r == Sorted(Range(keys, lo, hi))
  {
    var page := KeyRange(keys, lo, hi, PAGE);
    FirstPaging(keys, lo, hi, page);
    r := page;
    while |page| == PAGE
      invariant Paging(keys, lo, hi, r, page)
      decreases |Range(keys, lo, hi)| - |r|, |page|
    {
      var start := page[|page| - 1];
      var next := KeyRange(keys, start, hi, PAGE);
      NextPaging(keys, lo, hi, r, page, next);
      page := next;
      r := r + page;
    }
    LastPaging(keys, lo, hi, r, page);
  }

  lemma {:induction false} ListedFits(keys: set<Key>, lo: Key, hi: Key, r: seq<Key>)
    requires Listed(keys, lo, hi, r)
    ensures |r| <= |Range(keys, lo, hi)|
  {
    AscendingCount(r);
    SubsetCount((set k | k in r), Range(keys, lo, hi));
  }

  // ---------------------------------------------------------------------------------------------
  // Directory entry keys
  // ---------------------------------------------------------------------------------------------

  const END := 251 as char          // no name starts with this character or a later one

  lemma {:induction false} PrefixLess(p: Key, a: Key, b: Key)
    ensures Less(p + a, p + b) <==> Less(a, b)
  {
    if p == "" {
      assert p + a == a && p + b == b;
    } else {
      PrefixLess(p[1..], a, b);
      assert (p + a)[1..] == p[1..] + a && (p + b)[1..] == p[1..] + b;
    }
  }

  /** The range between a prefix and the prefix with an end mark consists of longer keys with that prefix. */
  lemma {:induction false} RangeHasPrefix(p: Key, c: char, k: Key)
    ensures Less(p, k) && Less(k, p + [c]) <==> |k| > |p| && k[..|p|] == p && k[|p|] < c
  {
    if p == "" {
      if k != "" && k[0] == c {
        assert p + [c] == [c];
        assert ([c])[1..] == "";
      }
    } else if k != "" {
      RangeHasPrefix(p[1..], c, k[1..]);
      assert (p + [c])[1..] == p[1..] + [c];
      if |k| > |p| && k[0] == p[0] {
        assert k[..|p|] == [k[0]] + k[1..][..|p| - 1] && p == [p[0]] + p[1..];
      }
    }
  }

  /** The position of the first bar. */
  function FirstBar(s: string): (r: nat)
    ensures r <= |s| && (r < |s| ==> s[r] == '|')
    ensures forall i :: 0 <= i < r ==> s[i] != '|'
  {
    if s == "" || s[0] == '|' then 0 else 1 + FirstBar(s[1..])
  }

  predicate Number(s: string) {
    s != "" && forall i :: 0 <= i < |s| ==> '0' <= s[i] <= '9'
  }

  /** The names of a directory's entries, each once and in order. */
  method ReadDir(keys: set<Key>, inode: string) returns (names: seq<string>)
    requires Number(inode)
    ensures Ascending(names)
    ensures forall n :: n in names <==> n != "" && n[0] < END && inode + "|" + n in keys
  {
    var prefix := inode + "|";
    var found := List(keys, prefix, prefix + [END]);
    names := [];
    for i := 0 to |found|
      invariant |names| == i && forall j :: 0 <= j < i ==> found[j] == prefix + names[j]
    {
      assert found[i] in found;
      RangeHasPrefix(prefix, END, found[i]);
      var bar := FirstBar(found[i]);
      assert found[i][|inode|] == prefix[|inode|] == '|';
      assert forall j :: 0 <= j < |inode| ==> found[i][j] == inode[j];
      assert bar == |inode|;
      names := names + [found[i][bar + 1..]];
      assert found[i] == found[i][..|prefix|] + found[i][|prefix|..];
    }
    NamesListed(keys, prefix, found, names);
  }

  lemma {:induction false} NamesListed(keys: set<Key>, prefix: Key, found: seq<Key>, names: seq<string>)
    requires found == Sorted(Range(keys, prefix, prefix + [END]))
    requires |names| == |found| && forall j :: 0 <= j < |found| ==> found[j] == prefix + names[j]
    ensures Ascending(names)
    ensures forall n :: n in names <==> n != "" && n[0] < END && prefix + n in keys
  {
    forall i, j | 0 <= i < j < |names| ensures Less(names[i], names[j]) {
      assert Less(found[i], found[j]);
      PrefixLess(prefix, names[i], names[j]);
    }
    forall n ensures n in names <==> n != "" && n[0] < END && prefix + n in keys {
      RangeHasPrefix(prefix, END, prefix + n);
      assert (prefix + n)[|prefix|..] == n;
      if n in names {
        var j :| 0 <= j < |names| && names[j] == n;
        assert found[j] in found;
      }
    }
  }
}
