/** The cache of metadata and data blocks: a list from the most to the least recently used entry and a table of
  positions in it. Dirty entries neither expire nor are evicted. */
module LruCache {
  import opened Prelude

  /** A list node; its id stands for the iterator the table holds. */
  datatype Node<Data> = Node(id: nat, data: Data, time: nat)

  function Erased<T>(s: seq<T>, i: nat): (r: seq<T>)
    requires i < |s|
    ensures |r| == |s| - 1
    ensures forall j :: 0 <= j < |r| ==> r[j] == if j < i then s[j] else s[j + 1]
  {
    s[..i] + s[i + 1..]
  }

  // ---------------------------------------------------------------------------------------------
  // Eviction
  // ---------------------------------------------------------------------------------------------

  /** The eviction loop from the b-th entry backwards. Erasing an entry moves the reverse iterator by one, so that the
    loop's own step skips the entry in front of it. */
  function Evicted<Data>(s: seq<Node<Data>>, b: nat, capacity: nat, dirty: Data -> bool): seq<Node<Data>>
    requires b <= |s|
    decreases b
  {
    if b == 0 || |s| < capacity then s
    else if dirty(s[b - 1].data) then Evicted(s, b - 1, capacity, dirty)
    else Evicted(Erased(s, b - 1), if b == 1 then 0 else b - 2, capacity, dirty)
  }

  lemma {:induction false} ErasedElements<T>(s: seq<T>, i: nat, x: T)
    requires i < |s|
    ensures x in Erased(s, i) ==> x in s
    ensures x in s && x != s[i] ==> x in Erased(s, i)
  {
    var r := Erased(s, i);
    if x in r {
      var j :| 0 <= j < |r| && r[j] == x;
      assert s[if j < i then j else j + 1] == x;
    }
    if x in s && x != s[i] {
      var j :| 0 <= j < |s| && s[j] == x;
      assert r[if j < i then j else j - 1] == x;
    }
  }

  /** Dirty entries survive eviction, nothing is added, and as long as there is room nothing is removed. */
  lemma {:induction false} EvictionKeepsDirty<Data>(
      s: seq<Node<Data>>, b: nat, capacity: nat, dirty: Data -> bool, x: Node<Data>)
    requires b <= |s|
    ensures x in Evicted(s, b, capacity, dirty) ==> x in s
    ensures x in s && (dirty(x.data) || |s| < capacity) ==> x in Evicted(s, b, capacity, dirty)
    decreases b
  {
    if b > 0 && |s| >= capacity {
      if dirty(s[b - 1].data) {
        EvictionKeepsDirty(s, b - 1, capacity, dirty, x);
      } else {
        ErasedElements(s, b - 1, x);
        EvictionKeepsDirty(Erased(s, b - 1), if b == 1 then 0 else b - 2, capacity, dirty, x);
      }
    }
  }

  /** The least recently used clean entry. */
  ghost predicate LastClean<Data>(s: seq<Node<Data>>, i: nat, dirty: Data -> bool) {
    i < |s| && !dirty(s[i].data) && forall j :: i < j < |s| ==> dirty(s[j].data)
  }

  /** At capacity, eviction removes exactly the least recently used clean entry. */
  lemma {:induction false} EvictionAtCapacity<Data>(s: seq<Node<Data>>, b: nat, dirty: Data -> bool, i: nat)
    requires i < b <= |s| && LastClean(s, i, dirty)
    ensures Evicted(s, b, |s|, dirty) == Erased(s, i)
    decreases b
  {
    if b - 1 > i { EvictionAtCapacity(s, b - 1, dirty, i); }
  }

  lemma {:induction false} AllDirtyStay<Data>(s: seq<Node<Data>>, b: nat, capacity: nat, dirty: Data -> bool)
    requires b <= |s| && forall j :: 0 <= j < b ==> dirty(s[j].data)
    ensures Evicted(s, b, capacity, dirty) == s
    decreases b
  {
    if b > 0 && |s| >= capacity { AllDirtyStay(s, b - 1, capacity, dirty); }
  }

  /** Far above capacity every other entry is skipped: of entries that are all clean, half may stay. */
  lemma {:induction false} AllCleanEvicted<Data>(s: seq<Node<Data>>, b: nat, capacity: nat, dirty: Data -> bool)
    requires b <= |s| && forall j :: 0 <= j < |s| ==> !dirty(s[j].data)
    ensures
      var excess := |s| + 1 - capacity;
      |Evicted(s, b, capacity, dirty)| == |s| - if excess <= 0 then 0 else if excess <= (b + 1) / 2 then excess
        else (b + 1) / 2
    decreases b
  {
    if b > 0 && |s| >= capacity {
      AllCleanEvicted(Erased(s, b - 1), if b == 1 then 0 else b - 2, capacity, dirty);
    }
  }

  /** Adding to a cache of clean entries ends within capacity exactly when at least about half of them may stay. */
  lemma {:induction false} AllCleanExact<Data>(s: seq<Node<Data>>, capacity: nat, dirty: Data -> bool)
    requires forall j :: 0 <= j < |s| ==> !dirty(s[j].data)
    ensures |Evicted(s, |s|, capacity, dirty)| < capacity <==> |s| / 2 < capacity
  {
    AllCleanEvicted(s, |s|, capacity, dirty);
  }

  // ---------------------------------------------------------------------------------------------
  // List and table
  // ---------------------------------------------------------------------------------------------

  /** Every node is found under its key, and every key leads to a node. */
  ghost predicate Bijection<Key, Data>(s: seq<Node<Data>>, lookup: map<Key, nat>, keyOf: Data -> Key) {
    && (forall i, j :: 0 <= i < j < |s| ==> s[i].id != s[j].id)
    && (forall i :: 0 <= i < |s| ==> keyOf(s[i].data) in lookup && lookup[keyOf(s[i].data)] == s[i].id)
    && (forall k :: k in lookup ==> exists i :: 0 <= i < |s| && s[i].id == lookup[k] && keyOf(s[i].data) == k)
  }

  /** The index in s of the j-th node that is left. */
  function Before(i: nat, j: nat): nat {
    if j < i then j else j + 1
  }

  lemma {:induction false} EraseKeepsKeys<Key, Data>(
      s: seq<Node<Data>>, lookup: map<Key, nat>, keyOf: Data -> Key, i: nat, j: nat)
    requires Bijection(s, lookup, keyOf) && i < |s| && j < |s| - 1
    ensures
      var r, l := Erased(s, i), lookup - {keyOf(s[i].data)};
      r[j] == s[Before(i, j)] && keyOf(r[j].data) in l && l[keyOf(r[j].data)] == r[j].id
  {
    assert s[Before(i, j)].id != s[i].id;
  }

  lemma {:induction false} EraseKeepsNodes<Key, Data>(
      s: seq<Node<Data>>, lookup: map<Key, nat>, keyOf: Data -> Key, i: nat, k: Key)
    requires Bijection(s, lookup, keyOf) && i < |s| && k in lookup && k != keyOf(s[i].data)
    ensures
      var r := Erased(s, i);
      exists j :: 0 <= j < |r| && r[j].id == lookup[k] && keyOf(r[j].data) == k
  {
    var j :| 0 <= j < |s| && s[j].id == lookup[k] && keyOf(s[j].data) == k;
    assert Erased(s, i)[if j < i then j else j - 1] == s[j];
  }

  lemma {:induction false} EraseKeepsBijection<Key, Data>(
      s: seq<Node<Data>>, lookup: map<Key, nat>, keyOf: Data -> Key, i: nat)
    requires Bijection(s, lookup, keyOf) && i < |s|
    ensures Bijection(Erased(s, i), lookup - {keyOf(s[i].data)}, keyOf)
  {
    var r, l := Erased(s, i), lookup - {keyOf(s[i].data)};
    forall j | 0 <= j < |r| ensures keyOf(r[j].data) in l && l[keyOf(r[j].data)] == r[j].id {
      EraseKeepsKeys(s, lookup, keyOf, i, j);
    }
    forall j, j' | 0 <= j < j' < |r| ensures r[j].id != r[j'].id {
      assert s[Before(i, j)].id != s[Before(i, j')].id;
    }
    forall k | k in l ensures exists j :: 0 <= j < |r| && r[j].id == l[k] && keyOf(r[j].data) == k {
      EraseKeepsNodes(s, lookup, keyOf, i, k);
    }
  }

  lemma {:induction false} PushKeepsBijection<Key, Data>(
      s: seq<Node<Data>>, lookup: map<Key, nat>, keyOf: Data -> Key, x: Node<Data>)
    requires Bijection(s, lookup, keyOf) && keyOf(x.data) !in lookup && forall i :: 0 <= i < |s| ==> s[i].id != x.id
    ensures Bijection([x] + s, lookup[keyOf(x.data) := x.id], keyOf)
  {
    var r, l := [x] + s, lookup[keyOf(x.data) := x.id];
    forall k | k in l ensures exists j :: 0 <= j < |r| && r[j].id == l[k] && keyOf(r[j].data) == k {
      if k == keyOf(x.data) {
        assert r[0] == x;
      } else {
        var j :| 0 <= j < |s| && s[j].id == lookup[k] && keyOf(s[j].data) == k;
        assert r[j + 1] == s[j];
      }
    }
  }

  /** Where the node of a key is, or -1. */
  function Position<Key(==), Data>(s: seq<Node<Data>>, keyOf: Data -> Key, k: Key): (r: int)
    ensures -1 <= r < |s| && (r >= 0 ==> keyOf(s[r].data) == k)
    ensures r < 0 ==> forall i :: 0 <= i < |s| ==> keyOf(s[i].data) != k
  {
    if s == [] then -1
    else if keyOf(s[|s| - 1].data) == k then |s| - 1
    else Position(s[..|s| - 1], keyOf, k)
  }

  lemma {:induction false} PositionFound<Key, Data>(
      s: seq<Node<Data>>, lookup: map<Key, nat>, keyOf: Data -> Key, k: Key)
    requires Bijection(s, lookup, keyOf)
    ensures k in lookup <==> Position(s, keyOf, k) >= 0
    ensures forall i :: 0 <= i < |s| && k in lookup && s[i].id == lookup[k] ==> i == Position(s, keyOf, k)
  {}

  class Cache<Key(==), Data> {
    var list: seq<Node<Data>>           // most recently used first
    var lookup: map<Key, nat>
    var blocked: set<Key>
    var nextId: nat
    const expiration: nat               // 0: entries never expire
    const capacity: nat
    const keyOf: Data -> Key

    ghost predicate Valid()
      reads this
    {
      Bijection(list, lookup, keyOf) && forall i :: 0 <= i < |list| ==> list[i].id < nextId
    }

    constructor (expiration: nat, capacity: nat, keyOf: Data -> Key)
      ensures Valid() && list == [] && blocked == {}
      ensures this.expiration == expiration && this.capacity == capacity && this.keyOf == keyOf
    {
      list, lookup, blocked, nextId := [], map[], {}, 0;
      this.expiration, this.capacity, this.keyOf := expiration, capacity, keyOf;
    }

    predicate Expired(x: Node<Data>, now: nat, dirty: Data -> bool) {
      !dirty(x.data) && expiration != 0 && now - x.time > expiration
    }

    /** Dirty entries, young ones, and all of a cache without expiration are served. */
    predicate Alive(x: Node<Data>, now: nat, dirty: Data -> bool) {
      dirty(x.data) || now <= x.time + expiration || expiration == 0
    }

    /** Follows the iterator in the table. */
    method Find(k: Key) returns (i: nat)
      requires Valid() && k in lookup
      ensures i == Position(list, keyOf, k)
    {
      PositionFound(list, lookup, keyOf, k);
      i := 0;
      while list[i].id != lookup[k]
        invariant i <= Position(list, keyOf, k)
        decreases |list| - i
      {
        assert list[Position(list, keyOf, k)].id == lookup[k];
        i := i + 1;
      }
    }

    method Erase(k: Key, i: nat)
      requires Valid() && i < |list| && keyOf(list[i].data) == k
      modifies `list, `lookup
      ensures Valid() && list == Erased(old(list), i) && lookup == old(lookup) - {k}
    {
      EraseKeepsBijection(list, lookup, keyOf, i);
      list := Erased(list, i);
      lookup := lookup - {k};
    }

    method MoveToFront(k: Key, i: nat)
      requires Valid() && i < |list| && keyOf(list[i].data) == k
      modifies `list
      ensures Valid() && list == [old(list)[i]] + Erased(old(list), i)
    {
      EraseKeepsBijection(list, lookup, keyOf, i);
      PushKeepsBijection(Erased(list, i), lookup - {k}, keyOf, list[i]);
      assert (lookup - {k})[k := list[i].id] == lookup;
      list := [list[i]] + Erased(list, i);
    }

    /** An entry that is found becomes the most recently used one; an expired entry is dropped. */
    method Get(k: Key, now: nat, dirty: Data -> bool) returns (d: Option<Data>)
      requires Valid() && k !in blocked
      modifies `list, `lookup
      ensures Valid()
      ensures
        var i := Position(old(list), keyOf, k);
        if i < 0 then d.None? && list == old(list)
        else if Expired(old(list)[i], now, dirty) then d.None? && list == Erased(old(list), i)
        else d == Some(old(list)[i].data) && list == [old(list)[i]] + Erased(old(list), i)
      ensures
        var i := Position(old(list), keyOf, k);
        d.Some? <==> i >= 0 && Alive(old(list)[i], now, dirty)
    {
      PositionFound(list, lookup, keyOf, k);
      if k !in lookup { return None; }
      var i := Find(k);
      if Expired(list[i], now, dirty) {
        Erase(k, i);
        return None;
      }
      d := Some(list[i].data);
      MoveToFront(k, i);
    }

    /** The eviction loop. */
    method Evict(dirty: Data -> bool)
      requires Valid()
      modifies `list, `lookup
      ensures Valid() && list == Evicted(old(list), |old(list)|, capacity, dirty)
      ensures lookup.Keys <= old(lookup).Keys
    {
      var b: nat := |list|;
      while b > 0 && |list| >= capacity
        invariant b <= |list|
        invariant Valid() && lookup.Keys <= old(lookup).Keys
        invariant Evicted(list, b, capacity, dirty) == Evicted(old(list), |old(list)|, capacity, dirty)
        decreases b
      {
        if !dirty(list[b - 1].data) {
          Erase(keyOf(list[b - 1].data), b - 1);
          b := if b == 1 then 0 else b - 2;
        } else {
          b := b - 1;
        }
      }
    }

    method PushFront(k: Key, d: Data, now: nat)
      requires Valid() && keyOf(d) == k && k !in lookup
      modifies `list, `lookup, `nextId
      ensures Valid() && list == [Node(old(nextId), d, now)] + old(list)
    {
      var x := Node(nextId, d, now);
      PushKeepsBijection(list, lookup, keyOf, x);
      list := [x] + list;
      lookup := lookup[k := nextId];
      nextId := nextId + 1;
    }

    /** The list without the entry of a key. */
    ghost function Others(k: Key): seq<Node<Data>>
      reads this
    {
      var i := Position(list, keyOf, k);
      if i < 0 then list else Erased(list, i)
    }

    /** Adding a key that is not cached, or has expired, evicts entries if there is no room and puts the new one
      first. */
    method Add(k: Key, d: Data, now: nat, dirty: Data -> bool) returns (added: bool)
      requires Valid() && keyOf(d) == k
      modifies this
      ensures Valid()
      ensures
        var i := Position(old(list), keyOf, k);
        added <==> i < 0 || !Alive(old(list)[i], now, dirty)
      ensures if added
        then list == [Node(old(nextId), d, now)] + Evicted(old(Others(k)), |old(Others(k))|, capacity, dirty)
          && blocked == old(blocked) - {k}
        else list == old(list) && blocked == old(blocked)
    {
      PositionFound(list, lookup, keyOf, k);
      if k in lookup {
        var i := Find(k);
        if !Expired(list[i], now, dirty) { return false; }
        Erase(k, i);
      }
      Evict(dirty);
      PushFront(k, d, now);
      blocked := blocked - {k};
      return true;
    }

    method Block(k: Key) returns (inserted: bool)
      requires Valid()
      modifies `blocked
      ensures Valid() && inserted == (k !in old(blocked)) && blocked == old(blocked) + {k}
    {
      inserted := k !in blocked;
      blocked := blocked + {k};
    }

    method Invalidate(k: Key)
      requires Valid()
      modifies `list, `lookup, `blocked
      ensures Valid() && list == old(Others(k)) && lookup == old(lookup) - {k} && blocked == old(blocked) - {k}
    {
      PositionFound(list, lookup, keyOf, k);
      if k in lookup {
        var i := Find(k);
        Erase(k, i);
      }
      blocked := blocked - {k};
    }
  }

  /** Adding an absent key to a cache within its capacity keeps it there if any entry is clean, at the cost of at most
    the least recently used clean entry. */
  lemma {:induction false} AddWithinCapacity<Data>(s: seq<Node<Data>>, capacity: nat, dirty: Data -> bool, i: nat)
    requires |s| <= capacity && LastClean(s, i, dirty)
    ensures Evicted(s, |s|, capacity, dirty) == if |s| < capacity then s else Erased(s, i)
    ensures |Evicted(s, |s|, capacity, dirty)| + 1 <= capacity
  {
    if |s| == capacity { EvictionAtCapacity(s, |s|, dirty, i); }
  }
}
