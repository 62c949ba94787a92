/** Key ranges over several partitions: the pages of all of them are put together, sorted and cut. */
module PartitionedRange {
  import opened Prelude
  import opened KeyOrder
  import opened DirectoryListing

  // ---------------------------------------------------------------------------------------------
  // Sorting
  // ---------------------------------------------------------------------------------------------

  function Inserted(k: Key, s: seq<Key>): seq<Key> {
    if s == [] || AtMost(k, s[0]) then [k] + s else [s[0]] + Inserted(k, s[1..])
  }

  /** std::sort. */
  function SortKeys(s: seq<Key>): seq<Key> {
    if s == [] then [] else Inserted(s[0], SortKeys(s[1..]))
  }

  lemma {:induction false} InsertedElements(k: Key, s: seq<Key>)
    ensures forall x :: x in Inserted(k, s) <==> x == k || x in s
    ensures |Inserted(k, s)| == |s| + 1
  {
    if s != [] {
      assert s == [s[0]] + s[1..];
      if !AtMost(k, s[0]) { InsertedElements(k, s[1..]); }
    }
  }

  lemma {:induction false} InsertedAscends(k: Key, s: seq<Key>)
    requires Ascending(s) && k !in s
    ensures Ascending(Inserted(k, s))
  {
    if s == [] || AtMost(k, s[0]) {
      forall i | 0 < i < |s| ensures s != [] && Less(k, s[i]) {
        LessTransitive(k, s[0], s[i]);
      }
      assert [k] + s == Inserted(k, s);
    } else {
      TailElements(s);
      InsertedAscends(k, s[1..]);
      InsertedElements(k, s[1..]);
      LessTotal(k, s[0]);
      var r := Inserted(k, s[1..]);
      forall i | 0 <= i < |r| ensures Less(s[0], r[i]) {
        assert r[i] in r;
        if r[i] != k {
          var j :| 0 <= j < |s[1..]| && s[1..][j] == r[i];
          assert s[j + 1] == r[i];
        }
      }
    }
  }

  lemma {:induction false} SortKeysSorts(s: seq<Key>)
    requires Distinct(s)
    ensures Ascending(SortKeys(s)) && |SortKeys(s)| == |s|
    ensures forall k :: k in SortKeys(s) <==> k in s
  {
    if s != [] {
      assert s[0] !in s[1..];
      SortKeysSorts(s[1..]);
      InsertedElements(s[0], SortKeys(s[1..]));
      InsertedAscends(s[0], SortKeys(s[1..]));
      assert s == [s[0]] + s[1..];
    }
  }

  // ---------------------------------------------------------------------------------------------
  // Counting
  // ---------------------------------------------------------------------------------------------

  /** An ascending list does not fit into fewer places than it has elements. */
  lemma {:induction false} AscendingFits(a: seq<Key>, b: seq<Key>)
    requires Ascending(a) && Ascending(b) && forall k :: k in a ==> k in b
    ensures |a| <= |b|
    ensures |a| == |b| ==> forall k :: k in b ==> k in a
  {
    AscendingCount(a);
    AscendingCount(b);
    var sa, sb := set k | k in a, set k | k in b;
    SubsetCount(sa, sb);
    if |a| == |b| {
      forall k | k in b ensures k in a { assert k in sb; }
    }
  }

  // ---------------------------------------------------------------------------------------------
  // First keys of a range
  // ---------------------------------------------------------------------------------------------

  /** r holds the first max keys of the range. */
  ghost predicate FirstKeys(r: seq<Key>, range: set<Key>, max: nat) {
    && Ascending(r) && |r| <= max
    && (forall k :: k in r ==> k in range)
    && (forall k :: k in range && k !in r ==> |r| == max && (r != [] ==> Less(r[|r| - 1], k)))
  }

  lemma {:induction false} FirstKeysInclude(a: seq<Key>, b: seq<Key>, range: set<Key>, max: nat, k: Key)
    requires FirstKeys(a, range, max) && FirstKeys(b, range, max) && k in a
    ensures k in b
  {
    if k !in b {
      forall x | x in b ensures x in a {
        if x !in a {
          UpTo(a, k);
          UpTo(b, x);
          LessTotal(x, k);
          LastLess(a, k, x);
          LastLess(b, x, k);
        }
      }
      AscendingFits(b, a);
    }
  }

  lemma {:induction false} UpTo(a: seq<Key>, k: Key)
    requires Ascending(a) && k in a
    ensures AtMost(k, a[|a| - 1])
  {}

  lemma {:induction false} LastLess(a: seq<Key>, k: Key, x: Key)
    requires Ascending(a) && k in a && Less(a[|a| - 1], x)
    ensures Less(k, x)
  {
    if k != a[|a| - 1] { LessTransitive(k, a[|a| - 1], x); }
  }

  lemma {:induction false} FirstKeysUnique(a: seq<Key>, b: seq<Key>, range: set<Key>, max: nat)
    requires FirstKeys(a, range, max) && FirstKeys(b, range, max)
    ensures a == b
  {
    forall k ensures k in a <==> k in b {
      if k in a { FirstKeysInclude(a, b, range, max, k); }
      if k in b { FirstKeysInclude(b, a, range, max, k); }
    }
    AscendingUnique(a, b);
  }

  // ---------------------------------------------------------------------------------------------
  // Merging pages
  // ---------------------------------------------------------------------------------------------

  function Cut(s: seq<Key>, max: nat): seq<Key> {
    if |s| > max then s[..max] else s
  }

  ghost function Union(parts: seq<set<Key>>): (r: set<Key>)
    ensures forall k :: k in r <==> exists i :: 0 <= i < |parts| && k in parts[i]
  {
    set i, k | 0 <= i < |parts| && k in parts[i] :: k
  }

  ghost predicate Disjoint(parts: seq<set<Key>>) {
    forall i, j, k :: 0 <= i < j < |parts| && k in parts[i] ==> k !in parts[j]
  }

  /** A key on the page of one of the first n partitions. */
  ghost predicate Paged(k: Key, parts: seq<set<Key>>, n: nat, lo: Key, hi: Key, max: nat)
    requires n <= |parts|
  {
    exists i :: 0 <= i < n && k in KeyRange(parts[i], lo, hi, max)
  }

  /** The keys put together: the pages of the first n partitions and nothing else. */
  ghost predicate Collected(keys: seq<Key>, parts: seq<set<Key>>, n: nat, lo: Key, hi: Key, max: nat)
    requires n <= |parts|
  {
    Distinct(keys) && forall k :: k in keys <==> Paged(k, parts, n, lo, hi, max)
  }

  /** A full page of smaller keys keeps a key out of the first ones. */
  lemma {:induction false} FullPageFirst(page: seq<Key>, all: seq<Key>, max: nat, k: Key)
    requires Ascending(page) && Ascending(all) && |page| == max && k !in all
    requires forall x :: x in page ==> x in all && Less(x, k)
    ensures |all| >= max && (max > 0 ==> Less(all[max - 1], k))
  {
    AscendingFits(page, all);
    if max > 0 && !Less(all[max - 1], k) {
      LessTotal(all[max - 1], k);
      assert all[max - 1] in all;
      var head := all[..max - 1];
      forall x | x in page ensures x in head {
        var j :| 0 <= j < |all| && all[j] == x;
        if j >= max - 1 {
          UpTo(all[max - 1..j + 1], all[max - 1]);
          LessTotal(x, k);
          if all[max - 1] != x { LessTransitive(k, all[max - 1], x); }
        }
        assert x == head[j];
      }
      AscendingFits(page, head);
    }
  }

  /** A key of some partition that is not among the first keys comes after all of them. */
  lemma {:induction false} PagesCover(all: seq<Key>, parts: seq<set<Key>>, lo: Key, hi: Key, max: nat, k: Key)
    requires Ascending(all) && forall x :: Paged(x, parts, |parts|, lo, hi, max) ==> x in all
    requires k in Range(Union(parts), lo, hi) && k !in Cut(all, max)
    ensures |all| >= max && (max > 0 ==> Less(all[max - 1], k))
  {
    if k in all {
      var j :| 0 <= j < |all| && all[j] == k;
    } else {
      var i :| 0 <= i < |parts| && k in parts[i];
      var page := KeyRange(parts[i], lo, hi, max);
      KeyRangeIsPrefix(parts[i], lo, hi, max);
      assert k in Range(parts[i], lo, hi);
      assert !Paged(k, parts, |parts|, lo, hi, max);
      assert k !in page;
      forall x | x in page ensures x in all && Less(x, k) {
        assert Paged(x, parts, |parts|, lo, hi, max);
        LastLess(page, x, k);
      }
      FullPageFirst(page, all, max, k);
    }
  }

  lemma {:induction false} PagesWithin(parts: seq<set<Key>>, lo: Key, hi: Key, max: nat, k: Key)
    requires Paged(k, parts, |parts|, lo, hi, max)
    ensures k in Range(Union(parts), lo, hi)
  {
    var i :| 0 <= i < |parts| && k in KeyRange(parts[i], lo, hi, max);
    KeyRangeIsPrefix(parts[i], lo, hi, max);
  }

  lemma {:induction false} SortedPagesFirst(all: seq<Key>, parts: seq<set<Key>>, lo: Key, hi: Key, max: nat)
    requires Ascending(all) && forall k :: k in all <==> Paged(k, parts, |parts|, lo, hi, max)
    ensures FirstKeys(Cut(all, max), Range(Union(parts), lo, hi), max)
  {
    var r, range := Cut(all, max), Range(Union(parts), lo, hi);
    forall k | k in r ensures k in range {
      assert k in all;
      PagesWithin(parts, lo, hi, max, k);
    }
    forall k | k in range && k !in r ensures |r| == max && (r != [] ==> Less(r[|r| - 1], k)) {
      PagesCover(all, parts, lo, hi, max, k);
    }
  }

  lemma {:induction false} PageIsFirst(keys: set<Key>, lo: Key, hi: Key, max: nat)
    ensures FirstKeys(KeyRange(keys, lo, hi, max), Range(keys, lo, hi), max)
  {
    KeyRangeIsPrefix(keys, lo, hi, max);
  }

  lemma {:induction false} PagesMerge(keys: seq<Key>, parts: seq<set<Key>>, lo: Key, hi: Key, max: nat)
    requires Collected(keys, parts, |parts|, lo, hi, max)
    ensures Cut(SortKeys(keys), max) == KeyRange(Union(parts), lo, hi, max)
  {
    SortKeysSorts(keys);
    SortedPagesFirst(SortKeys(keys), parts, lo, hi, max);
    PageIsFirst(Union(parts), lo, hi, max);
    FirstKeysUnique(Cut(SortKeys(keys), max), KeyRange(Union(parts), lo, hi, max), Range(Union(parts), lo, hi), max);
  }

  /** GetKeyRange over partitions that hold different keys returns what a single store with all their keys would. */
  method GetKeyRange(parts: seq<set<Key>>, lo: Key, hi: Key, max: nat) returns (r: seq<Key>)
    requires Disjoint(parts)
    ensures r == KeyRange(Union(parts), lo, hi, max)
  {
    var keys: seq<Key> := [];
    for i := 0 to |parts|
      invariant Collected(keys, parts, i, lo, hi, max)
    {
      var tmp := KeyRange(parts[i], lo, hi, max);
      Collect(keys, parts, i, lo, hi, max);
      keys := keys + tmp;
    }
    PagesMerge(keys, parts, lo, hi, max);
    r := SortKeys(keys);
    if |r| > max { r := r[..max]; }
  }

  lemma {:induction false} Collect(keys: seq<Key>, parts: seq<set<Key>>, n: nat, lo: Key, hi: Key, max: nat)
    requires n < |parts| && Disjoint(parts) && Collected(keys, parts, n, lo, hi, max)
    ensures Collected(keys + KeyRange(parts[n], lo, hi, max), parts, n + 1, lo, hi, max)
  {
    var page := KeyRange(parts[n], lo, hi, max);
    KeyRangeIsPrefix(parts[n], lo, hi, max);
    forall k | k in keys ensures k !in page {
      assert Paged(k, parts, n, lo, hi, max);
      var i :| 0 <= i < n && k in KeyRange(parts[i], lo, hi, max);
      KeyRangeIsPrefix(parts[i], lo, hi, max);
      assert k in parts[i];
    }
    forall i, j | 0 <= i < j < |page| ensures page[i] != page[j] {
      LessTotal(page[i], page[j]);
    }
    forall i, j | 0 <= i < |keys| <= j < |keys| + |page| ensures (keys + page)[i] != (keys + page)[j] {
      assert keys[i] in keys && page[j - |keys|] in page;
    }
    forall k ensures k in keys + page <==> Paged(k, parts, n + 1, lo, hi, max) {
      assert k in keys <==> Paged(k, parts, n, lo, hi, max);
    }
  }

  // ---------------------------------------------------------------------------------------------
  // Partition numbers
  // ---------------------------------------------------------------------------------------------

  lemma {:induction false} ModShift(a: nat, n: nat)
    requires 0 < n
    ensures (a + n) % n == a % n
  {
    ModUnique(a + n, n, a / n + 1, a % n);
  }

  lemma {:induction false} Spread(x: nat, y: nat, n: nat)
    requires x > y
    ensures x * n >= y * n + n
  {
    assert x * n == (x - 1) * n + n;
    if x - 1 > y { Spread(x - 1, y, n); }
  }

  lemma {:induction false} ModUnique(a: nat, n: nat, q: nat, r: nat)
    requires 0 < n && r < n && a == q * n + r
    ensures a % n == r && a / n == q
  {
    var p := a / n;
    assert a == p * n + a % n;
    if p > q { Spread(p, q, n); }
    if q > p { Spread(q, p, n); }
  }

  lemma {:induction false} ModEqual(a: nat, b: nat, n: nat)
    requires 0 < n && b <= a < b + 2 * n
    ensures a % n == b % n <==> a == b || a == b + n
  {
    var r := b % n;
    assert b == (b / n) * n + r;
    ModShift(b, n);
    var x := r + (a - b);
    if x < n {
      ModUnique(a, n, b / n, x);
    } else if x < 2 * n {
      ModUnique(a, n, b / n + 1, x - n);
    } else {
      ModUnique(a, n, b / n + 2, x - 2 * n);
    }
  }
}
