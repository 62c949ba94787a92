/** Reading, writing, truncating and flushing a file through the block cache. */
module FileClient {
  import opened Prelude
  import opened Bytes
  import opened BlockData
  import opened FileBlocks

  datatype Status = OK | EACCES | EFBIG

  class File {
    var size: nat             // of the metadata
    var stored: Blocks        // the data keys
    var cache: Cache
    var dirty: Option<nat>    // the block kept for write aggregation

    ghost var flat: seq<Byte>             // all writes and truncations, applied to one flat file
    ghost var pending: seq<Update>        // what the dirty block has not flushed yet

    function State(): FileState
      reads this
    {
      FileState(size, stored, cache, dirty)
    }

    ghost predicate Valid()
      reads this
    {
      Ok(State(), pending, flat)
    }

    predicate HasUpdates()
      reads this
    {
      Unflushed(cache, dirty)
    }

    constructor ()
      ensures Valid() && !HasUpdates() && flat == []
    {
      size, stored, cache, dirty := 0, map[], map[], None;
      flat, pending := [], [];
    }

    /** put_data: a block that was never read is merged with the stored one. */
    method PutData(k: nat)
      requires k in cache && Mergeable(cache[k].updates, |cache[k].d|)
      modifies `stored, `cache
      ensures stored == old(stored)[k := Flushed(old(cache[k]), k, old(stored))]
      ensures cache == old(cache)[k := Info(false, Flushed(old(cache[k]), k, old(stored)), [])]
    {
      var content := cache[k].d;
      if cache[k].blank && k in stored {
        var di := new DataInfo(cache[k].d);
        di.updates := cache[k].updates;
        var _ := di.MergeDataChanges(stored[k]);
        content := di.d;
      }
      stored := stored[k := content];
      cache := cache[k := Info(false, content, [])];
    }

    /** The flush of the dirty block; other blocks may have updates that are not its concern. */
    method FlushDirty()
      requires HasUpdates() && Mergeable(cache[dirty.value].updates, |cache[dirty.value].d|)
      modifies `size, `stored, `cache
      ensures State() == FlushState(old(State()))
    {
      var b := dirty.value;
      size := Max(Pos(b, |cache[b].d|), size);
      PutData(b);
    }

    /** Afterwards the stored blocks alone are the file. */
    method Fsync()
      requires Valid()
      modifies `size, `stored, `cache, `pending
      ensures Valid() && !HasUpdates() && size == |flat|
      ensures if old(HasUpdates())
        then old(FlushReady(State())) && State() == FlushState(old(State()))
        else State() == old(State())
    {
      if !HasUpdates() { return; }
      FlushStateKeeps(State(), pending, flat);
      FlushDirty();
      pending := [];
    }

    /** Updates block b and makes it the dirty block, after flushing the one that was. */
    method UpdateBlock(b: nat, c: Info, o: nat, x: seq<Byte>)
      requires CanFlush(State(), b)
      modifies `size, `stored, `cache, `dirty
      ensures State() == WriteState(old(State()), b, c, o, x)
    {
      cache := cache[b := Written(c, o, x)];
      if dirty != Some(b) && HasUpdates() { FlushDirty(); }
      dirty := Some(b);
    }

    method WriteBlock(b: nat, o: nat, x: seq<Byte>, grow: bool)
      requires Valid() && x != [] && o + |x| <= BLOCK
      modifies this
      ensures Valid() && flat == Applied(old(flat), Update.Write(Pos(b, o), x))
      ensures
        var c := CopyFor(old(State()), b, grow);
        old(CanFlush(State(), b)) && State() == WriteState(old(State()), b, c, o, x)
    {
      ghost var f := State();
      var c := CopyFor(State(), b, grow);
      WriteStateKeeps(f, pending, flat, b, c, o, x);
      UpdateBlock(b, c, o, x);
      pending := PendingAfter(f, pending, b, Update.Write(o, x));
      flat := Applied(flat, Update.Write(Pos(b, o), x));
    }

    /** A write stays within one block; the number of bytes written is returned. A block the file grows into is not
      read. */
    method Write(data: seq<Byte>, offset: nat, append: bool) returns (n: nat)
      requires Valid() && data != [] && offset + |data| <= OFFSET_MAX
      modifies this
      ensures Valid()
      ensures 0 < n <= |data| && InBlock(offset) + n <= BLOCK
      ensures n < |data| ==> InBlock(offset) + n == BLOCK
      ensures flat == Applied(old(flat), Update.Write(offset, data[..n]))
      ensures append || InBlock(offset + n) == 0 ==> !HasUpdates()
      ensures
        var b, f := BlockOf(offset), old(State());
        append || InBlock(offset + n) == 0 || (CanFlush(f, b)
          && State() == WriteState(f, b, CopyFor(f, b, offset + |data| > f.size), InBlock(offset), data[..n]))
    {
      var b := BlockOf(offset);
      var o := InBlock(offset);
      n := if |data| > BLOCK - o then BLOCK - o else |data|;
      WriteBlock(b, o, data[..n], offset + |data| > size);
      if append || InBlock(offset + n) == 0 {
        Fsync();
      }
    }

    /** Loads a block that is not cached. */
    method Load(b: nat)
      requires Valid()
      modifies `cache
      ensures Valid() && b in cache && HasUpdates() == old(HasUpdates())
      ensures cache == if b in old(cache) then old(cache) else old(cache)[b := Info(false, Stored(stored, b), [])]
    {
      if b !in cache { cache := cache[b := Info(false, Stored(stored, b), [])]; }
    }

    /** A read returns the file's bytes up to the end of the block, zeros behind the end of the file, and exactly those
      bytes wrong that an unflushed block hides. */
    method Read(count: nat, offset: nat) returns (buf: seq<Byte>, n: nat)
      requires Valid() && offset + count <= OFFSET_MAX
      modifies `cache
      ensures Valid() && HasUpdates() == old(HasUpdates())
      ensures |buf| == count && n <= count && InBlock(offset) + n <= BLOCK
      ensures n < count ==> InBlock(offset) + n == BLOCK
      ensures ReadFrom(old(State()), pending, flat, BlockOf(offset), InBlock(offset), buf[..n])
      ensures buf[n..] == Zeros(count - n)
    {
      var o := InBlock(offset);
      n := if count > BLOCK - o then BLOCK - o else count;
      var part := ReadBlock(BlockOf(offset), o, n);
      buf := part + Zeros(count - n);
      assert buf[..n] == part;
    }

    method ReadBlock(b: nat, o: nat, n: nat) returns (buf: seq<Byte>)
      requires Valid() && o + n <= BLOCK
      modifies `cache
      ensures Valid() && HasUpdates() == old(HasUpdates()) && |buf| == n
      ensures ReadFrom(old(State()), pending, flat, b, o, buf)
    {
      ghost var f := State();
      var d := Fetch(b);
      buf := CopyOut(d, o, n);
      RangeExact(f, pending, flat, b, o, buf);
    }

    method Fetch(b: nat) returns (d: seq<Byte>)
      requires Valid()
      modifies `cache
      ensures Valid() && HasUpdates() == old(HasUpdates())
      ensures d == ReadCopy(old(State()), b)
    {
      Load(b);
      d := cache[b].d;
    }

    /** A clean block may leave the cache at any time. */
    method Evict(b: nat)
      requires Valid()
      modifies `cache
      ensures Valid() && HasUpdates() == old(HasUpdates())
      ensures cache == if b in old(cache) && old(cache)[b].updates == [] then old(cache) - {b} else old(cache)
    {
      if b in cache && cache[b].updates == [] { cache := cache - {b}; }
    }

    /** Cuts or extends a block and writes it. */
    method CutBlock(b: nat, n: nat)
      requires Valid() && !HasUpdates() && n <= BLOCK
      modifies `cache, `stored
      ensures stored == old(stored)[b := Resize(Stored(old(stored), b), n)]
      ensures cache.Keys == old(cache).Keys + {b}
      ensures forall k :: k in cache ==> cache[k] == Info(false, Stored(stored, k), [])
    {
      Load(b);
      var c := cache[b];
      cache := cache[b := Info(c.blank, Resize(c.d, n), c.updates + [(n, 0)])];
      PutData(b);
    }

    method DeleteBlocks(first: nat, last: nat)
      modifies `cache, `stored
      ensures Deleted(old(stored), stored, first, last) && Deleted(old(cache), cache, first, last)
    {
      var i := first;
      while i <= last
        invariant first <= i <= Max(first, last + 1)
        invariant i == first ==> stored == old(stored) && cache == old(cache)
        invariant i > first ==> Deleted(old(stored), stored, first, i - 1) && Deleted(old(cache), cache, first, i - 1)
      {
        cache := cache - {i};
        stored := stored - {i};
        i := i + 1;
      }
    }

    method Shrink(offset: nat)
      requires Valid() && !HasUpdates() && offset < size
      modifies `size, `cache, `stored, `flat
      ensures Valid() && !HasUpdates() && flat == Applied(old(flat), Update.Truncate(offset))
    {
      ghost var f := State();
      CutBlock(BlockOf(offset), InBlock(offset));
      ghost var mid := State();
      DeleteBlocks(BlockOf(offset) + 1, BlockOf(size));
      size := offset;
      assert pending == [];
      ShrinkKeeps(f, flat, mid.stored, mid.cache, State());
      flat := Applied(flat, Update.Truncate(offset));
    }

    method Extend(offset: nat)
      requires Valid() && !HasUpdates() && offset >= size
      modifies `size, `cache, `stored, `flat
      ensures Valid() && !HasUpdates() && flat == Applied(old(flat), Update.Truncate(offset))
    {
      ghost var f := State();
      DeleteBlocks(BlockOf(offset) + 1, BlockOf(size));
      size := offset;
      assert pending == [];
      ExtendKeeps(f, flat, State());
      flat := Applied(flat, Update.Truncate(offset));
    }

    /** Bytes cut off are gone for good: when the file grows again, they read as zeros. */
    method Truncate(offset: nat, writable: bool) returns (status: Status)
      requires Valid()
      modifies this
      ensures Valid() && !HasUpdates() && size == |flat|
      ensures status == if !writable then EACCES else if offset > SIZE_MAX then EFBIG else OK
      ensures flat == if status == OK then Applied(old(flat), Update.Truncate(offset)) else old(flat)
    {
      Fsync();
      if !writable { return EACCES; }
      if offset > SIZE_MAX { return EFBIG; }
      if offset < size { Shrink(offset); } else { Extend(offset); }
      return OK;
    }
  }

  /** A buffer of zeros, filled with what the block has of the bytes asked for. */
  method CopyOut(d: seq<Byte>, o: nat, n: nat) returns (buf: seq<Byte>)
    ensures |buf| == n && forall i :: 0 <= i < n ==> buf[i] == At(d, o + i)
  {
    var copy := if n < |d| - o then n else |d| - o;
    buf := Zeros(n);
    if copy > 0 {
      forall i: nat | i < n {
        OverwriteAt(buf, 0, d[o..o + copy], i);
      }
      buf := Overwrite(buf, 0, d[o..o + copy]);
    }
  }
}
