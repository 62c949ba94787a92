/** Listing a directory whose entries are spread over several partitions. Every page asks as many partitions as the
  directory uses, but the first one asked depends on the key the page starts at.
 */
module PartitionedListing {
  import opened KeyOrder
  import opened DirectoryListing
  import opened PartitionedRange

  /** Where entries lie: entry k in the partition offset(k) behind the directory's first one, out of n partitions. */
  datatype Placement = Placement(base: nat, offset: Key -> nat, clusterSize: nat, n: nat)

  /** The cluster size is at most the number of partitions, and offsets are below it; the key of the directory itself,
    where a listing starts, has offset 0. */
  ghost predicate ValidPlacement(pl: Placement, lo: Key) {
    0 < pl.clusterSize <= pl.n && pl.offset(lo) == 0 && forall k :: pl.offset(k) < pl.clusterSize
  }

  function PartitionOf(pl: Placement, k: Key): nat
    requires pl.n > 0
  {
    (pl.base + pl.offset(k)) % pl.n
  }

  /** The i-th partition asked for a page that starts at a key with offset ds; the numbers wrap around. */
  function AskedPartition(pl: Placement, ds: nat, i: nat): nat
    requires pl.n > 0
  {
    (pl.base + ds + i) % pl.n
  }

  /** A page that starts at a key with offset ds asks the partition of an entry with offset dk. */
  predicate Reaches(pl: Placement, ds: nat, dk: nat) {
    ds <= dk || dk + pl.n < ds + pl.clusterSize
  }

  lemma {:induction false} ReachesExactly(pl: Placement, ds: nat, dk: nat)
    requires 0 < pl.clusterSize <= pl.n && ds < pl.clusterSize && dk < pl.clusterSize
    ensures Reaches(pl, ds, dk) <==>
      exists i: nat :: i < pl.clusterSize && AskedPartition(pl, ds, i) == (pl.base + dk) % pl.n
  {
    if ds <= dk {
      assert AskedPartition(pl, ds, dk - ds) == (pl.base + dk) % pl.n;
    } else {
      if dk + pl.n < ds + pl.clusterSize {
        ModShift(pl.base + dk, pl.n);
        assert AskedPartition(pl, ds, dk + pl.n - ds) == (pl.base + dk) % pl.n;
      }
      forall i: nat | i < pl.clusterSize
        ensures AskedPartition(pl, ds, i) == (pl.base + dk) % pl.n <==> ds + i == dk + pl.n
      {
        ModEqual(pl.base + ds + i, pl.base + dk, pl.n);
      }
    }
  }

  /** The entries in the partitions asked for a page that starts at a key. */
  function Asked(pl: Placement, all: set<Key>, start: Key): set<Key> {
    set k | k in all && Reaches(pl, pl.offset(start), pl.offset(k))
  }

  /** The pages of a listing, one after the other. */
  function Listing(pl: Placement, all: set<Key>, start: Key, hi: Key): seq<Key>
    decreases |Range(all, start, hi)|
  {
    var page := KeyRange(Asked(pl, all, start), start, hi, PAGE);
    if |page| != PAGE then page
    else
      RangeShrinks(pl, all, start, hi);
      page + Listing(pl, all, page[PAGE - 1], hi)
  }

  lemma {:induction false} RangeShrinks(pl: Placement, all: set<Key>, start: Key, hi: Key)
    requires |KeyRange(Asked(pl, all, start), start, hi, PAGE)| == PAGE
    ensures
      var last := KeyRange(Asked(pl, all, start), start, hi, PAGE)[PAGE - 1];
      last in Range(all, start, hi) && |Range(all, last, hi)| < |Range(all, start, hi)|
  {
    var page := KeyRange(Asked(pl, all, start), start, hi, PAGE);
    KeyRangeIsPrefix(Asked(pl, all, start), start, hi, PAGE);
    var last := page[PAGE - 1];
    assert last in page;
    LessTotal(last, last);
    forall k | k in Range(all, last, hi) ensures k in Range(all, start, hi) {
      LessTransitive(start, last, k);
    }
    SubsetCount(Range(all, last, hi), Range(all, start, hi));
    assert last !in Range(all, last, hi);
  }

  // ---------------------------------------------------------------------------------------------
  // When a listing is complete
  // ---------------------------------------------------------------------------------------------

  /** The key the page with the j-th entry starts at. */
  function PageStart(sorted: seq<Key>, start: Key, j: nat): Key
    requires j < |sorted|
  {
    if j < PAGE then start else sorted[j / PAGE * PAGE - 1]
  }

  /** The j-th entry lies in a partition that its page asks. */
  predicate ReachedAt(pl: Placement, sorted: seq<Key>, start: Key, j: nat)
    requires j < |sorted|
  {
    Reaches(pl, pl.offset(PageStart(sorted, start, j)), pl.offset(sorted[j]))
  }

  ghost predicate AllReached(pl: Placement, sorted: seq<Key>, start: Key) {
    forall j: nat :: j < |sorted| ==> ReachedAt(pl, sorted, start, j)
  }

  ghost predicate PageReached(pl: Placement, sorted: seq<Key>, start: Key) {
    forall j: nat :: j < |sorted| && j < PAGE ==> ReachedAt(pl, sorted, start, j)
  }

  lemma {:induction false} ReachedShift(pl: Placement, sorted: seq<Key>, start: Key, j: nat)
    requires PAGE <= j < |sorted|
    ensures ReachedAt(pl, sorted[PAGE..], sorted[PAGE - 1], j - PAGE) <==> ReachedAt(pl, sorted, start, j)
  {
    assert j / PAGE == (j - PAGE) / PAGE + 1;
  }

  lemma {:induction false} AllReachedSplits(pl: Placement, sorted: seq<Key>, start: Key)
    requires |sorted| >= PAGE
    ensures AllReached(pl, sorted, start) <==>
      PageReached(pl, sorted, start) && AllReached(pl, sorted[PAGE..], sorted[PAGE - 1])
  {
    var rest, next := sorted[PAGE..], sorted[PAGE - 1];
    if AllReached(pl, sorted, start) {
      forall j: nat | j < |rest| ensures ReachedAt(pl, rest, next, j) {
        ReachedShift(pl, sorted, start, j + PAGE);
      }
    }
    if PageReached(pl, sorted, start) && AllReached(pl, rest, next) {
      forall j: nat | j < |sorted| ensures ReachedAt(pl, sorted, start, j) {
        if j >= PAGE { ReachedShift(pl, sorted, start, j); }
      }
    }
  }

  /** What comes behind an entry of the sorted range. */
  lemma {:induction false} SortedRest(all: set<Key>, start: Key, hi: Key, j: nat)
    requires j < |Sorted(Range(all, start, hi))|
    ensures
      var sorted := Sorted(Range(all, start, hi));
      Sorted(Range(all, sorted[j], hi)) == sorted[j + 1..]
  {
    var sorted := Sorted(Range(all, start, hi));
    var rest := sorted[j + 1..];
    assert sorted[j] in sorted;
    forall k ensures k in rest <==> k in Range(all, sorted[j], hi) {
      RangeSplits(all, start, sorted[j], hi, k);
      if k in rest {
        var i :| 0 <= i < |rest| && rest[i] == k;
        assert sorted[i + j + 1] == k && k in sorted;
      }
      if k in Range(all, sorted[j], hi) {
        assert k in sorted;
        var i :| 0 <= i < |sorted| && sorted[i] == k;
        LessTotal(sorted[j], k);
        assert i > j;
        assert rest[i - j - 1] == k;
      }
    }
    AscendingUnique(rest, Sorted(Range(all, sorted[j], hi)));
  }

  /** A page whose entries are all asked for is the page a single store would return. */
  lemma {:induction false} ReachedPage(pl: Placement, all: set<Key>, start: Key, hi: Key)
    requires PageReached(pl, Sorted(Range(all, start, hi)), start)
    ensures KeyRange(Asked(pl, all, start), start, hi, PAGE) == Cut(Sorted(Range(all, start, hi)), PAGE)
  {
    var sorted := Sorted(Range(all, start, hi));
    var page, asked := Cut(sorted, PAGE), Asked(pl, all, start);
    forall k | k in page ensures k in Range(asked, start, hi) {
      var j: nat :| j < |page| && page[j] == k;
      assert k == sorted[j] && k in sorted && ReachedAt(pl, sorted, start, j);
    }
    forall k | k in Range(asked, start, hi) && k !in page ensures |page| == PAGE && Less(page[PAGE - 1], k) {
      assert k in Range(all, start, hi);
      assert k in sorted;
      var j :| 0 <= j < |sorted| && sorted[j] == k;
      assert forall i :: 0 <= i < |page| ==> page[i] == sorted[i];
    }
    PageIsFirst(asked, start, hi, PAGE);
    FirstKeysUnique(page, KeyRange(asked, start, hi, PAGE), Range(asked, start, hi), PAGE);
  }

  /** A listing goes forward only. */
  lemma {:induction false} ListingAhead(pl: Placement, all: set<Key>, start: Key, hi: Key, k: Key)
    requires k in Listing(pl, all, start, hi)
    ensures Less(start, k)
    decreases |Range(all, start, hi)|
  {
    var page := KeyRange(Asked(pl, all, start), start, hi, PAGE);
    KeyRangeIsPrefix(Asked(pl, all, start), start, hi, PAGE);
    if k !in page {
      RangeShrinks(pl, all, start, hi);
      ListingAhead(pl, all, page[PAGE - 1], hi, k);
      assert page[PAGE - 1] in page;
      LessTransitive(start, page[PAGE - 1], k);
    }
  }

  /** A full page that leaves out one of the first entries goes beyond it. */
  lemma {:induction false} PageGoesBeyond(page: seq<Key>, sorted: seq<Key>, j: nat)
    requires Ascending(page) && Ascending(sorted) && |page| == PAGE && j < |sorted| && j < PAGE && sorted[j] !in page
    requires forall k :: k in page ==> k in sorted
    ensures Less(sorted[j], page[PAGE - 1])
  {
    LessTotal(sorted[j], page[PAGE - 1]);
    assert page[PAGE - 1] in page;
    if !Less(sorted[j], page[PAGE - 1]) {
      var head := sorted[..j];
      forall k | k in page ensures k in head {
        UpTo(page, k);
        if k != page[PAGE - 1] { LessTransitive(k, page[PAGE - 1], sorted[j]); }
        var i :| 0 <= i < |sorted| && sorted[i] == k;
        if i > j { LessTotal(k, sorted[j]); }
        assert head[i] == k;
      }
      AscendingFits(page, head);
    }
  }

  /** An entry that its page does not ask for is not listed. */
  lemma {:induction false} UnreachedIsLost(pl: Placement, all: set<Key>, start: Key, hi: Key, j: nat)
    requires j < |Sorted(Range(all, start, hi))| && j < PAGE
    requires !Reaches(pl, pl.offset(start), pl.offset(Sorted(Range(all, start, hi))[j]))
    ensures Sorted(Range(all, start, hi))[j] !in Listing(pl, all, start, hi)
  {
    var sorted := Sorted(Range(all, start, hi));
    var page := KeyRange(Asked(pl, all, start), start, hi, PAGE);
    KeyRangeIsPrefix(Asked(pl, all, start), start, hi, PAGE);
    var k := sorted[j];
    assert k !in page;
    if |page| == PAGE && k in Listing(pl, all, start, hi) {
      RangeShrinks(pl, all, start, hi);
      assert k in Listing(pl, all, page[PAGE - 1], hi);
      ListingAhead(pl, all, page[PAGE - 1], hi, k);
      PageGoesBeyond(page, sorted, j);
      LessTotal(k, page[PAGE - 1]);
    }
  }

  /** A listing returns all entries in order exactly when each of them lies in a partition that its page asks. */
  lemma {:induction false} ListingExact(pl: Placement, all: set<Key>, start: Key, hi: Key)
    ensures
      var sorted := Sorted(Range(all, start, hi));
      Listing(pl, all, start, hi) == sorted <==> AllReached(pl, sorted, start)
    decreases |Range(all, start, hi)|
  {
    var sorted := Sorted(Range(all, start, hi));
    if PageReached(pl, sorted, start) {
      ReachedPage(pl, all, start, hi);
      if |sorted| >= PAGE {
        CompletePage(pl, all, start, hi);
        ListingExact(pl, all, sorted[PAGE - 1], hi);
      }
    } else {
      var j: nat :| j < |sorted| && j < PAGE && !ReachedAt(pl, sorted, start, j);
      UnreachedIsLost(pl, all, start, hi, j);
      assert sorted[j] in sorted;
    }
  }

  lemma {:induction false} CompletePage(pl: Placement, all: set<Key>, start: Key, hi: Key)
    requires
      var sorted := Sorted(Range(all, start, hi));
      |sorted| >= PAGE && PageReached(pl, sorted, start)
        && KeyRange(Asked(pl, all, start), start, hi, PAGE) == sorted[..PAGE]
    ensures
      var sorted := Sorted(Range(all, start, hi));
      var next := sorted[PAGE - 1];
      && |Range(all, next, hi)| < |Range(all, start, hi)|
      && (Listing(pl, all, start, hi) == sorted <==> Listing(pl, all, next, hi) == Sorted(Range(all, next, hi)))
      && (AllReached(pl, sorted, start) <==> AllReached(pl, Sorted(Range(all, next, hi)), next))
  {
    var sorted := Sorted(Range(all, start, hi));
    RangeShrinks(pl, all, start, hi);
    SortedRest(all, start, hi, PAGE - 1);
    AllReachedSplits(pl, sorted, start);
    assert sorted == sorted[..PAGE] + sorted[PAGE..];
    var rest := Listing(pl, all, sorted[PAGE - 1], hi);
    if sorted[..PAGE] + rest == sorted {
      assert rest == (sorted[..PAGE] + rest)[PAGE..];
    }
  }

  /** With one partition, or with all of them, every listing is complete. */
  lemma {:induction false} FullSpreadComplete(pl: Placement, all: set<Key>, lo: Key, hi: Key)
    requires ValidPlacement(pl, lo) && (pl.clusterSize == 1 || pl.clusterSize == pl.n)
    ensures Listing(pl, all, lo, hi) == Sorted(Range(all, lo, hi))
  {
    ListingExact(pl, all, lo, hi);
  }

  /** For every cluster size in between, and every directory of more than a page, some placement of the names makes the
    listing lose an entry. */
  lemma {:induction false} PartialSpreadLoses(base: nat, clusterSize: nat, n: nat, all: set<Key>, lo: Key, hi: Key)
    returns (pl: Placement)
    requires 1 < clusterSize < n && |Sorted(Range(all, lo, hi))| > PAGE
    ensures pl.base == base && pl.clusterSize == clusterSize && pl.n == n && ValidPlacement(pl, lo)
    ensures Listing(pl, all, lo, hi) != Sorted(Range(all, lo, hi))
  {
    var sorted := Sorted(Range(all, lo, hi));
    var last := sorted[PAGE - 1];
    assert last in sorted;
    LessTotal(lo, last);
    pl := Placement(base, k => if k == last then 1 else 0, clusterSize, n);
    assert Less(last, sorted[PAGE]);
    LessTotal(last, sorted[PAGE]);
    assert !ReachedAt(pl, sorted, lo, PAGE);
    ListingExact(pl, all, lo, hi);
  }

  // ---------------------------------------------------------------------------------------------
  // The loop over pages and partitions
  // ---------------------------------------------------------------------------------------------

  /** The partitions hold the entries as placed. */
  ghost predicate Placed(pl: Placement, all: set<Key>, parts: seq<set<Key>>) {
    |parts| == pl.n > 0 && forall q, k :: 0 <= q < |parts| ==> (k in parts[q] <==> k in all && PartitionOf(pl, k) == q)
  }

  function AskedParts(pl: Placement, parts: seq<set<Key>>, start: Key): seq<set<Key>>
    requires |parts| == pl.n > 0
  {
    seq(pl.clusterSize, i requires 0 <= i => parts[AskedPartition(pl, pl.offset(start), i)])
  }

  lemma {:induction false} AskedUnion(pl: Placement, all: set<Key>, parts: seq<set<Key>>, lo: Key, start: Key)
    requires ValidPlacement(pl, lo) && Placed(pl, all, parts)
    ensures Union(AskedParts(pl, parts, start)) == Asked(pl, all, start)
  {
    var asked, ds := AskedParts(pl, parts, start), pl.offset(start);
    forall k ensures k in Union(asked) <==> k in Asked(pl, all, start) {
      ReachesExactly(pl, ds, pl.offset(k));
      if k in Union(asked) {
        var i: nat :| i < |asked| && k in asked[i];
        assert AskedPartition(pl, ds, i) == PartitionOf(pl, k);
      }
      if k in Asked(pl, all, start) {
        var i: nat :| i < pl.clusterSize && AskedPartition(pl, ds, i) == PartitionOf(pl, k);
        assert k in asked[i];
      }
    }
  }

  lemma {:induction false} AskedDisjoint(pl: Placement, all: set<Key>, parts: seq<set<Key>>, lo: Key, start: Key)
    requires ValidPlacement(pl, lo) && Placed(pl, all, parts)
    ensures Disjoint(AskedParts(pl, parts, start))
  {
    var asked, ds := AskedParts(pl, parts, start), pl.offset(start);
    forall i, j, k | 0 <= i < j < |asked| && k in asked[i] ensures k !in asked[j] {
      AskedApart(pl, all, parts, ds, i, j, k);
    }
  }

  lemma {:induction false} AskedApart(
      pl: Placement, all: set<Key>, parts: seq<set<Key>>, ds: nat, i: nat, j: nat, k: Key)
    requires Placed(pl, all, parts) && i < j < pl.clusterSize <= pl.n
    requires k in parts[AskedPartition(pl, ds, i)]
    ensures k !in parts[AskedPartition(pl, ds, j)]
  {
    ModEqual(pl.base + ds + j, pl.base + ds + i, pl.n);
    assert PartitionOf(pl, k) == AskedPartition(pl, ds, i);
  }

  method AskPage(pl: Placement, parts: seq<set<Key>>, start: Key, hi: Key, ghost all: set<Key>, ghost lo: Key)
    returns (page: seq<Key>)
    requires ValidPlacement(pl, lo) && Placed(pl, all, parts)
    ensures page == KeyRange(Asked(pl, all, start), start, hi, PAGE)
  {
    AskedUnion(pl, all, parts, lo, start);
    AskedDisjoint(pl, all, parts, lo, start);
    page := GetKeyRange(AskedParts(pl, parts, start), start, hi, PAGE);
  }

  /** The paging loop of a directory listing over partitions. */
  method ListDirectory(pl: Placement, parts: seq<set<Key>>, lo: Key, hi: Key, ghost all: set<Key>) returns (r: seq<Key>)
    requires ValidPlacement(pl, lo) && Placed(pl, all, parts)
    ensures r == Listing(pl, all, lo, hi)
  {
    var start := lo;
    var page := AskPage(pl, parts, start, hi, all, lo);
    r := page;
    while |page| == PAGE
      invariant page == KeyRange(Asked(pl, all, start), start, hi, PAGE)
      invariant Listing(pl, all, lo, hi) == if |page| == PAGE then r + Listing(pl, all, page[PAGE - 1], hi) else r
      decreases |Range(all, start, hi)|
    {
      RangeShrinks(pl, all, start, hi);
      start := page[PAGE - 1];
      page := AskPage(pl, parts, start, hi, all, lo);
      r := r + page;
    }
  }
}
