/** Drives keep their keys in lexicographic order and answer range requests page by page. */
module KeyOrder {

  type Key = string

  predicate Less(a: Key, b: Key) {
    if b == "" then false
    else if a == "" then true
    else if a[0] == b[0] then Less(a[1..], b[1..])
    else a[0] < b[0]
  }

  predicate AtMost(a: Key, b: Key) {
    a == b || Less(a, b)
  }

  lemma {:induction false} LessTransitive(a: Key, b: Key, c: Key)
    requires Less(a, b) && Less(b, c)
    ensures Less(a, c)
  {
    if a != "" && a[0] == b[0] == c[0] {
      LessTransitive(a[1..], b[1..], c[1..]);
    }
  }

  lemma {:induction false} LessTotal(a: Key, b: Key)
    ensures Less(a, b) || Less(b, a) || a == b
    ensures !(Less(a, b) && Less(b, a))
    ensures !Less(a, a)
  {
    if a != "" {
      LessTotal(a[1..], a[1..]);
      if b != "" && a[0] == b[0] {
        LessTotal(a[1..], b[1..]);
        if a[1..] == b[1..] {
          assert a == [a[0]] + a[1..] == b;
        }
      }
    }
  }

  ghost predicate Ascending(s: seq<Key>) {
    forall i, j :: 0 <= i < j < |s| ==> Less(s[i], s[j])
  }

  predicate IsLeast(x: Key, s: set<Key>) {
    x in s && forall y :: y in s ==> AtMost(x, y)
  }

  lemma {:induction false} LeastExists(s: set<Key>) returns (x: Key)
    requires s != {}
    ensures IsLeast(x, s)
  {
    x :| x in s;
    if s - {x} == {} {
      assert forall y :: y in s ==> y == x || y in s - {x};
    } else {
      var y := LeastExists(s - {x});
      LessTotal(x, y);
      if Less(y, x) {
        x := y;
      } else {
        forall z | z in s ensures AtMost(x, z) {
          if z != x {
            assert z in s - {x};
            if Less(y, z) { LessTransitive(x, y, z); }
          }
        }
      }
    }
  }

  function Least(s: set<Key>): (x: Key)
    requires s != {}
    ensures IsLeast(x, s)
  {
    assert exists x :: IsLeast(x, s) by { var w := LeastExists(s); }
    assert forall x, y :: IsLeast(x, s) && IsLeast(y, s) ==> x == y by {
      forall x, y | IsLeast(x, s) && IsLeast(y, s) ensures x == y {
        LessTotal(x, y);
      }
    }
    var x :| x in s && IsLeast(x, s);
    x
  }

  /** The keys of a set in ascending order. */
  function Sorted(s: set<Key>): (r: seq<Key>)
    ensures Ascending(r)
    ensures forall k :: k in r <==> k in s
  {
    if s == {} then [] else
      var x := Least(s);
      var rest := Sorted(s - {x});
      assert forall k :: k in rest ==> Less(x, k);
      [x] + rest
  }

  predicate Within(k: Key, lo: Key, loInclusive: bool, hi: Key, hiInclusive: bool) {
    && (Less(lo, k) || (loInclusive && k == lo))
    && (Less(k, hi) || (hiInclusive && k == hi))
  }

  /** GetKeyRange on one drive: the first max keys of the range. */
  function Page(keys: set<Key>, lo: Key, loInclusive: bool, hi: Key, hiInclusive: bool, max: nat): (r: seq<Key>) {
    var all := Sorted(set k | k in keys && Within(k, lo, loInclusive, hi, hiInclusive));
    if |all| <= max then all else all[..max]
  }

  /** A page holds exactly the range's keys up to its last one; a page that is not full holds them all. */
  lemma {:induction false} PageIsPrefix(
      keys: set<Key>, lo: Key, loInclusive: bool, hi: Key, hiInclusive: bool, max: nat)
    ensures
      var r := Page(keys, lo, loInclusive, hi, hiInclusive, max);
      && Ascending(r)
      && |r| <= max
      && (forall k :: k in r ==> k in keys && Within(k, lo, loInclusive, hi, hiInclusive))
      && (forall k :: k in keys && Within(k, lo, loInclusive, hi, hiInclusive) && k !in r ==>
        |r| == max && (r != [] ==> Less(r[|r| - 1], k)))
  {
    var range := set k | k in keys && Within(k, lo, loInclusive, hi, hiInclusive);
    var all := Sorted(range);
    var r := Page(keys, lo, loInclusive, hi, hiInclusive, max);
    forall k | k in r ensures k in range {
      assert k in all;
    }
    forall k | k in range && k !in r ensures |r| == max && (r != [] ==> Less(r[|r| - 1], k)) {
      assert k in all;
      var i :| 0 <= i < |all| && all[i] == k;
    }
  }

  /** The keys a scan has still ahead of it. */
  ghost function Ahead(keys: set<Key>, from: Key): set<Key> {
    set k | k in keys && Less(from, k)
  }

  lemma {:induction false} AheadShrinks(keys: set<Key>, from: Key, to: Key)
    requires Less(from, to) && to in keys
    ensures Ahead(keys, to) < Ahead(keys, from)
  {
    LessTotal(to, to);
    assert to in Ahead(keys, from) && to !in Ahead(keys, to);
    forall k | k in Ahead(keys, to) ensures k in Ahead(keys, from) {
      LessTransitive(from, to, k);
    }
  }

  lemma {:induction false} TailElements(a: seq<Key>)
    requires Ascending(a) && a != []
    ensures forall k :: k in a[1..] <==> k in a && k != a[0]
  {
    LessTotal(a[0], a[0]);
    assert a == [a[0]] + a[1..];
    forall k | k in a[1..] ensures Less(a[0], k) {
      var i :| 0 <= i < |a[1..]| && a[1..][i] == k;
      assert a[i + 1] == k;
    }
  }

  /** Two ascending sequences with the same elements are equal. */
  lemma {:induction false} AscendingUnique(a: seq<Key>, b: seq<Key>)
    requires Ascending(a) && Ascending(b)
    requires forall k :: k in a <==> k in b
    ensures a == b
  {
    assert a != [] ==> a[0] in b;
    assert b != [] ==> b[0] in a;
    if a != [] && b != [] {
      assert a[0] in b && b[0] in a;
      LessTotal(a[0], b[0]);
      TailElements(a);
      TailElements(b);
      AscendingUnique(a[1..], b[1..]);
    }
  }

  lemma {:induction false} AscendingCount(a: seq<Key>)
    requires Ascending(a)
    ensures |set k | k in a| == |a|
  {
    if a != [] {
      TailElements(a);
      AscendingCount(a[1..]);
      assert (set k | k in a) == {a[0]} + (set k | k in a[1..]);
    }
  }

  lemma {:induction false} SubsetCount<T>(a: set<T>, b: set<T>)
    requires a <= b
    ensures |a| <= |b| && (|a| == |b| ==> a == b)
  {
    assert b == a + (b - a);
    assert |b| == |a| + |b - a|;
  }
}
