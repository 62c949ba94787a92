/** A file of one client: byte offsets are mapped to blocks, writes are kept in at most one block until it is
  flushed. */
module FileBlocks {
  import opened Prelude
  import opened Bytes
  import opened BlockData

  const BLOCK := 1048576
  const OFFSET_MAX := 0x8000_0000        // the product of block number and block size is taken in 32 bits
  const SIZE_MAX := 0xffff_ffff

  type Blocks = map<nat, seq<Byte>>

  /** A cached block; blank when it was not read because the write made the file grow. */
  datatype Info = Info(blank: bool, d: seq<Byte>, updates: seq<Extent>)

  type Cache = map<nat, Info>

  /** The byte position of byte j of block k. */
  function Pos(k: nat, j: nat): nat {
    k * 1048576 + j
  }

  /** The block a byte position lies in. */
  function BlockOf(i: nat): nat {
    i / 1048576
  }

  /** The place of a byte position in its block. */
  function InBlock(i: nat): (r: nat)
    ensures r < BLOCK && Pos(BlockOf(i), r) == i
  {
    i % 1048576
  }

  lemma {:induction false} PosInExtent(k: nat, j: nat, b: nat, o: nat, n: nat)
    requires j < BLOCK && o + n <= BLOCK
    ensures Pos(b, o) <= Pos(k, j) < Pos(b, o) + n <==> k == b && o <= j < o + n
  {}

  function Stored(stored: Blocks, k: nat): seq<Byte> {
    if k in stored then stored[k] else []
  }

  // ---------------------------------------------------------------------------------------------
  // Blocks and the flat file
  // ---------------------------------------------------------------------------------------------

  /** Block k as it will be once the pending updates of block b are flushed. */
  ghost function Content(stored: Blocks, b: nat, pending: seq<Update>, k: nat): seq<Byte> {
    if k == b then Replayed(Stored(stored, k), pending) else Stored(stored, k)
  }

  ghost predicate ShownAt(stored: Blocks, b: nat, pending: seq<Update>, flat: seq<Byte>, k: nat, j: nat) {
    At(Content(stored, b, pending, k), j) == At(flat, Pos(k, j))
  }

  /** Read one after the other, the blocks are the flat file. */
  ghost predicate Shown(stored: Blocks, b: nat, pending: seq<Update>, flat: seq<Byte>) {
    forall k: nat, j: nat :: j < BLOCK ==> ShownAt(stored, b, pending, flat, k, j)
  }

  /** No block exceeds the block size or the file. */
  ghost predicate Bounded(stored: Blocks, size: nat) {
    forall k: nat :: k in stored ==> |stored[k]| <= BLOCK && Pos(k, |stored[k]|) <= size
  }

  /** A write reaches exactly the bytes of a block that it reaches in the flat file. */
  lemma {:induction false} WriteReaches(before: Byte, b: nat, o: nat, x: seq<Byte>, k: nat, j: nat)
    requires o + |x| <= BLOCK && j < BLOCK
    ensures (if k == b then AppliedAt(before, Write(o, x), j) else before)
      == AppliedAt(before, Write(Pos(b, o), x), Pos(k, j))
  {
    PosInExtent(k, j, b, o, |x|);
  }

  lemma {:induction false} WriteShownAt(
      stored: Blocks, b: nat, pending: seq<Update>, flat: seq<Byte>, o: nat, x: seq<Byte>, k: nat, j: nat)
    requires ShownAt(stored, b, pending, flat, k, j) && o + |x| <= BLOCK && j < BLOCK
    ensures ShownAt(stored, b, pending + [Write(o, x)], Applied(flat, Write(Pos(b, o), x)), k, j)
  {
    ReplayedOne(Stored(stored, b), pending, Write(o, x));
    AppliedIs(Replayed(Stored(stored, b), pending), Write(o, x), j);
    AppliedIs(flat, Write(Pos(b, o), x), Pos(k, j));
    WriteReaches(At(flat, Pos(k, j)), b, o, x, k, j);
  }

  lemma {:induction false} WriteShown(
      stored: Blocks, b: nat, pending: seq<Update>, flat: seq<Byte>, o: nat, x: seq<Byte>)
    requires Shown(stored, b, pending, flat) && o + |x| <= BLOCK
    ensures Shown(stored, b, pending + [Write(o, x)], Applied(flat, Write(Pos(b, o), x)))
  {
    forall k: nat, j: nat | j < BLOCK
      ensures ShownAt(stored, b, pending + [Write(o, x)], Applied(flat, Write(Pos(b, o), x)), k, j)
    {
      assert ShownAt(stored, b, pending, flat, k, j);
      WriteShownAt(stored, b, pending, flat, o, x, k, j);
    }
  }

  lemma {:induction false} FlushShown(stored: Blocks, b: nat, pending: seq<Update>, flat: seq<Byte>, content: seq<Byte>)
    requires Shown(stored, b, pending, flat) && Same(content, Replayed(Stored(stored, b), pending))
    ensures Shown(stored[b := content], b, [], flat)
  {
    var stored' := stored[b := content];
    forall k: nat, j: nat | j < BLOCK ensures ShownAt(stored', b, [], flat, k, j) {
      assert ShownAt(stored, b, pending, flat, k, j);
    }
  }

  /** With nothing pending it does not matter which block would be the dirty one. */
  lemma {:induction false} ShownAnyBlock(stored: Blocks, b: nat, b': nat, flat: seq<Byte>)
    requires Shown(stored, b, [], flat)
    ensures Shown(stored, b', [], flat)
  {
    forall k: nat, j: nat | j < BLOCK ensures ShownAt(stored, b', [], flat, k, j) {
      assert ShownAt(stored, b, [], flat, k, j);
    }
  }

  /** Cutting the last block and dropping those behind it cuts the file. */
  lemma {:induction false} TruncateShown(stored: Blocks, stored': Blocks, b: nat, flat: seq<Byte>, size: nat)
    requires Shown(stored, b, [], flat)
    requires forall k: nat :: k < BlockOf(size) ==> Stored(stored', k) == Stored(stored, k)
    requires Stored(stored', BlockOf(size)) == Resize(Stored(stored, BlockOf(size)), InBlock(size))
    requires forall k: nat :: k > BlockOf(size) ==> Stored(stored', k) == []
    ensures Shown(stored', b, [], Applied(flat, Truncate(size)))
  {
    forall k: nat, j: nat | j < BLOCK ensures ShownAt(stored', b, [], Applied(flat, Truncate(size)), k, j) {
      assert ShownAt(stored, b, [], flat, k, j);
      assert k < BlockOf(size) ==> Pos(k, j) < size;
      assert k > BlockOf(size) ==> Pos(k, j) >= size;
      assert k == BlockOf(size) ==> (Pos(k, j) < size <==> j < InBlock(size));
      AppliedIs(flat, Truncate(size), Pos(k, j));
      ResizeAt(Stored(stored, k), InBlock(size), j);
    }
  }

  /** Growing a file adds zeros, which no block has to store. */
  lemma {:induction false} GrowShown(stored: Blocks, b: nat, flat: seq<Byte>, size: nat)
    requires Shown(stored, b, [], flat) && size >= |flat|
    ensures Shown(stored, b, [], Applied(flat, Truncate(size)))
  {
    forall k: nat, j: nat | j < BLOCK ensures ShownAt(stored, b, [], Applied(flat, Truncate(size)), k, j) {
      assert ShownAt(stored, b, [], flat, k, j);
      AppliedIs(flat, Truncate(size), Pos(k, j));
    }
  }

  // ---------------------------------------------------------------------------------------------
  // The client's state
  // ---------------------------------------------------------------------------------------------

  /** Clean copies equal the stored block; only the dirty block has updates. */
  ghost predicate CacheOk(cache: Cache, stored: Blocks, dirty: Option<nat>) {
    forall k :: k in cache ==>
      if cache[k].updates == [] then !cache[k].blank && cache[k].d == Stored(stored, k) else dirty == Some(k)
  }

  /** The dirty block's copy shows the pending writes, on what was stored or on nothing. */
  ghost predicate DirtyOk(c: Info, stored: seq<Byte>, pending: seq<Update>) {
    && c.updates == Extents(pending) && Writes(pending) && |c.d| <= BLOCK
    && Shows(c.d, if c.blank then [] else stored, pending)
  }

  function Flushed(c: Info, k: nat, stored: Blocks): seq<Byte>
    requires Mergeable(c.updates, |c.d|)
  {
    if c.blank && k in stored then Merged(c.d, c.updates, stored[k]) else c.d
  }

  lemma {:induction false} FlushedShows(c: Info, k: nat, stored: Blocks, pending: seq<Update>)
    requires DirtyOk(c, Stored(stored, k), pending)
    ensures Mergeable(c.updates, |c.d|)
    ensures Same(Flushed(c, k, stored), Replayed(Stored(stored, k), pending))
    ensures |Flushed(c, k, stored)| <= Max(|Stored(stored, k)|, |c.d|)
  {
    if c.blank { MergeReplays(c.d, [], pending, Stored(stored, k)); }
    if c.blank && k in stored && !OneTruncation(c.updates) {
      assert |Flushed(c, k, stored)| == Max(|stored[k]|, |c.d|);
    }
    if OneTruncation(Extents(pending)) {
      assert Extents(pending)[0] == ExtentOf(pending[0]);
    }
  }

  lemma {:induction false} QueueDirty(c: Info, stored: seq<Byte>, pending: seq<Update>, o: nat, x: seq<Byte>)
    requires DirtyOk(c, stored, pending) && x != [] && o + |x| <= BLOCK
    ensures DirtyOk(Info(c.blank, Applied(c.d, Write(o, x)), c.updates + [(o, |x|)]), stored, pending + [Write(o, x)])
    ensures |Applied(c.d, Write(o, x))| == Max(|c.d|, o + |x|)
  {
    var w := Write(o, x);
    assert Extents(pending + [w]) == Extents(pending) + [ExtentOf(w)];
    assert Writes(pending + [w]);
    QueueShows(c.d, if c.blank then [] else stored, pending, w);
  }

  predicate Unflushed(cache: Cache, dirty: Option<nat>) {
    dirty.Some? && dirty.value in cache && cache[dirty.value].updates != []
  }

  function DirtyBlock(dirty: Option<nat>): nat {
    if dirty.Some? then dirty.value else 0
  }

  /** What is unflushed: one block, or nothing. */
  ghost predicate PendingOk(
      size: nat, stored: Blocks, cache: Cache, dirty: Option<nat>, pending: seq<Update>, flat: seq<Byte>) {
    if Unflushed(cache, dirty) then
      var c := cache[dirty.value];
      DirtyOk(c, Stored(stored, dirty.value), pending) && |flat| == Max(size, Pos(dirty.value, |c.d|))
    else
      pending == [] && |flat| == size
  }

  ghost predicate FileOk(
      size: nat, stored: Blocks, cache: Cache, dirty: Option<nat>, pending: seq<Update>, flat: seq<Byte>) {
    && CacheOk(cache, stored, dirty)
    && PendingOk(size, stored, cache, dirty, pending, flat)
    && Bounded(stored, size)
    && Shown(stored, DirtyBlock(dirty), pending, flat)
  }

  lemma {:induction false} FlushKeeps(
      size: nat, stored: Blocks, cache: Cache, dirty: Option<nat>, pending: seq<Update>, flat: seq<Byte>)
    requires FileOk(size, stored, cache, dirty, pending, flat) && Unflushed(cache, dirty)
    ensures Mergeable(cache[dirty.value].updates, |cache[dirty.value].d|)
    ensures
      var b := dirty.value;
      var x := Flushed(cache[b], b, stored);
      FileOk(Max(Pos(b, |cache[b].d|), size), stored[b := x], cache[b := Info(false, x, [])], dirty, [], flat)
  {
    var b := dirty.value;
    FlushedShows(cache[b], b, stored, pending);
    FlushShown(stored, b, pending, flat, Flushed(cache[b], b, stored));
  }

  /** A copy to write on: the cached or stored block, or a blank one. */
  predicate Loaded(c: Info, stored: seq<Byte>) {
    c == Info(false, stored, []) || c == Info(true, [], [])
  }

  function Written(c: Info, o: nat, x: seq<Byte>): Info {
    Info(c.blank, Applied(c.d, Write(o, x)), c.updates + [(o, |x|)])
  }

  lemma {:induction false} LoadedOk(c: Info, stored: Blocks, k: nat, size: nat)
    requires Loaded(c, Stored(stored, k)) && Bounded(stored, size)
    ensures DirtyOk(c, Stored(stored, k), []) && (c.d != [] ==> Pos(k, |c.d|) <= size)
  {
    assert Extents([]) == [];
  }

  lemma {:induction false} StartWriteKeeps(
      size: nat, stored: Blocks, cache: Cache, dirty: Option<nat>, flat: seq<Byte>, b: nat, c: Info, o: nat,
        x: seq<Byte>)
    requires FileOk(size, stored, cache, dirty, [], flat) && !Unflushed(cache, dirty)
    requires Loaded(c, Stored(stored, b)) && x != [] && o + |x| <= BLOCK
    ensures FileOk(size, stored, cache[b := Written(c, o, x)], Some(b), [Write(o, x)],
      Applied(flat, Write(Pos(b, o), x)))
  {
    LoadedOk(c, stored, b, size);
    QueueDirty(c, Stored(stored, b), [], o, x);
    assert [] + [Write(o, x)] == [Write(o, x)];
    ShownAnyBlock(stored, DirtyBlock(dirty), b, flat);
    WriteShown(stored, b, [], flat, o, x);
    assert Written(c, o, x).updates != [];
  }

  lemma {:induction false} ContinueWriteKeeps(
      size: nat, stored: Blocks, cache: Cache, dirty: Option<nat>, pending: seq<Update>, flat: seq<Byte>, o: nat,
        x: seq<Byte>)
    requires FileOk(size, stored, cache, dirty, pending, flat) && Unflushed(cache, dirty) && x != [] && o + |x| <= BLOCK
    ensures
      var b := dirty.value;
      FileOk(size, stored, cache[b := Written(cache[b], o, x)], dirty, pending + [Write(o, x)],
        Applied(flat, Write(Pos(b, o), x)))
  {
    var b := dirty.value;
    QueueDirty(cache[b], Stored(stored, b), pending, o, x);
    WriteShown(stored, b, pending, flat, o, x);
    assert Written(cache[b], o, x).updates != [];
  }

  /** The stored blocks after truncation: the last one cut or extended to its share, those behind it gone. */
  ghost predicate Cut(stored: Blocks, stored': Blocks, size: nat) {
    var b := BlockOf(size);
    && (forall k: nat :: k < b ==> Stored(stored', k) == Stored(stored, k) && (k in stored' ==> k in stored))
    && b in stored' && stored'[b] == Resize(Stored(stored, b), InBlock(size))
    && (forall k: nat :: k > b ==> k !in stored')
  }

  lemma {:induction false} CutKeeps(
      stored: Blocks, cache: Cache, dirty: Option<nat>, flat: seq<Byte>, stored': Blocks, cache': Cache, size: nat)
    requires FileOk(|flat|, stored, cache, dirty, [], flat) && !Unflushed(cache, dirty) && size < |flat|
      && Cut(stored, stored', size)
    requires forall k :: k in cache' ==> cache'[k] == Info(false, Stored(stored', k), [])
    ensures FileOk(size, stored', cache', dirty, [], Applied(flat, Truncate(size)))
  {
    TruncateShown(stored, stored', DirtyBlock(dirty), flat, size);
    var b := BlockOf(size);
    forall k: nat | k in stored' ensures |stored'[k]| <= BLOCK && Pos(k, |stored'[k]|) <= size {
      if k < b {
        assert stored'[k] == Stored(stored, k);
        assert |stored[k]| <= BLOCK;
      }
    }
  }

  lemma {:induction false} GrowKeeps(stored: Blocks, cache: Cache, dirty: Option<nat>, flat: seq<Byte>, size: nat)
    requires FileOk(|flat|, stored, cache, dirty, [], flat) && !Unflushed(cache, dirty) && size >= |flat|
    ensures FileOk(size, stored, cache, dirty, [], Applied(flat, Truncate(size)))
  {
    GrowShown(stored, DirtyBlock(dirty), flat, size);
  }

  // ---------------------------------------------------------------------------------------------
  // Whole operations
  // ---------------------------------------------------------------------------------------------

  datatype FileState = FileState(size: nat, stored: Blocks, cache: Cache, dirty: Option<nat>)

  ghost predicate Ok(f: FileState, pending: seq<Update>, flat: seq<Byte>) {
    FileOk(f.size, f.stored, f.cache, f.dirty, pending, flat)
  }

  predicate FlushReady(f: FileState) {
    Unflushed(f.cache, f.dirty) && Mergeable(f.cache[f.dirty.value].updates, |f.cache[f.dirty.value].d|)
  }

  /** Writing the dirty block and the size of the file. */
  function FlushState(f: FileState): FileState
    requires FlushReady(f)
  {
    var b := f.dirty.value;
    var x := Flushed(f.cache[b], b, f.stored);
    FileState(Max(Pos(b, |f.cache[b].d|), f.size), f.stored[b := x], f.cache[b := Info(false, x, [])], f.dirty)
  }

  predicate MustFlush(f: FileState, b: nat) {
    f.dirty != Some(b) && Unflushed(f.cache, f.dirty)
  }

  lemma {:induction false} FlushStateKeeps(f: FileState, pending: seq<Update>, flat: seq<Byte>)
    requires Ok(f, pending, flat) && Unflushed(f.cache, f.dirty)
    ensures FlushReady(f)
    ensures Ok(FlushState(f), [], flat) && !Unflushed(FlushState(f).cache, f.dirty)
  {
    FlushKeeps(f.size, f.stored, f.cache, f.dirty, pending, flat);
  }

  /** Flushing the dirty block and updating another one commute. */
  lemma {:induction false} FlushCommutes(f: FileState, b: nat, c: Info)
    requires MustFlush(f, b) && FlushReady(f)
    ensures
      var f1 := f.(cache := f.cache[b := c]);
      && FlushReady(f1)
      && FlushState(f1) == FlushState(f).(cache := FlushState(f).cache[b := c])
  {
    var f1 := f.(cache := f.cache[b := c]);
    assert FlushState(f1).cache == FlushState(f).cache[b := c];
  }

  lemma {:induction false} CleanIsLoaded(f: FileState, pending: seq<Update>, flat: seq<Byte>, b: nat)
    requires Ok(f, pending, flat) && b in f.cache && (MustFlush(f, b) || !Unflushed(f.cache, f.dirty))
    ensures Loaded(f.cache[b], Stored(f.stored, b))
  {}

  lemma {:induction false} StartKeeps(f: FileState, flat: seq<Byte>, b: nat, c: Info, o: nat, x: seq<Byte>)
    requires Ok(f, [], flat) && !Unflushed(f.cache, f.dirty)
    requires Loaded(c, Stored(f.stored, b)) && x != [] && o + |x| <= BLOCK
    ensures Ok(f.(cache := f.cache[b := Written(c, o, x)], dirty := Some(b)), [Write(o, x)],
      Applied(flat, Write(Pos(b, o), x)))
  {
    StartWriteKeeps(f.size, f.stored, f.cache, f.dirty, flat, b, c, o, x);
  }

  /** A block that is written while another one is dirty: the other one is flushed after the update, but before the
    block becomes the dirty one. */
  lemma {:induction false} SwitchBlock(
      f: FileState, pending: seq<Update>, flat: seq<Byte>, b: nat, c: Info, o: nat, x: seq<Byte>)
    requires Ok(f, pending, flat) && MustFlush(f, b) && x != [] && o + |x| <= BLOCK
    requires if b in f.cache then c == f.cache[b] else Loaded(c, Stored(f.stored, b))
    ensures
      var f1 := f.(cache := f.cache[b := Written(c, o, x)]);
      && FlushReady(f1)
      && Ok(FlushState(f1).(dirty := Some(b)), [Write(o, x)], Applied(flat, Write(Pos(b, o), x)))
  {
    FlushStateKeeps(f, pending, flat);
    FlushCommutes(f, b, Written(c, o, x));
    if b in f.cache { CleanIsLoaded(f, pending, flat, b); }
    StartKeeps(FlushState(f), flat, b, c, o, x);
  }

  lemma {:induction false} StayOnBlock(
      f: FileState, pending: seq<Update>, flat: seq<Byte>, b: nat, c: Info, o: nat, x: seq<Byte>)
    requires Ok(f, pending, flat) && !MustFlush(f, b) && x != [] && o + |x| <= BLOCK
    requires if b in f.cache then c == f.cache[b] else Loaded(c, Stored(f.stored, b))
    ensures Ok(f.(cache := f.cache[b := Written(c, o, x)], dirty := Some(b)), pending + [Write(o, x)],
      Applied(flat, Write(Pos(b, o), x)))
  {
    if Unflushed(f.cache, f.dirty) {
      ContinueWriteKeeps(f.size, f.stored, f.cache, f.dirty, pending, flat, o, x);
    } else {
      if b in f.cache { CleanIsLoaded(f, pending, flat, b); }
      StartKeeps(f, flat, b, c, o, x);
      assert pending + [Write(o, x)] == [Write(o, x)];
    }
  }

  /** The copy of a block a write works on; a block the file grows into is not read. */
  function CopyFor(f: FileState, b: nat, grow: bool): (c: Info)
    ensures if b in f.cache then c == f.cache[b] else Loaded(c, Stored(f.stored, b))
  {
    if b in f.cache then f.cache[b] else if grow then Info(true, [], []) else Info(false, Stored(f.stored, b), [])
  }

  predicate CanFlush(f: FileState, b: nat) {
    MustFlush(f, b) ==> FlushReady(f)
  }

  /** Updates block b on its copy c and makes it the dirty one. */
  function WriteState(f: FileState, b: nat, c: Info, o: nat, x: seq<Byte>): FileState
    requires CanFlush(f, b)
  {
    var f1 := f.(cache := f.cache[b := Written(c, o, x)]);
    (if MustFlush(f, b) then FlushState(f1) else f1).(dirty := Some(b))
  }

  ghost function PendingAfter(f: FileState, pending: seq<Update>, b: nat, w: Update): seq<Update> {
    if MustFlush(f, b) then [w] else pending + [w]
  }

  lemma {:induction false} WriteStateKeeps(
      f: FileState, pending: seq<Update>, flat: seq<Byte>, b: nat, c: Info, o: nat, x: seq<Byte>)
    requires Ok(f, pending, flat) && x != [] && o + |x| <= BLOCK
    requires if b in f.cache then c == f.cache[b] else Loaded(c, Stored(f.stored, b))
    ensures CanFlush(f, b)
    ensures
      Ok(WriteState(f, b, c, o, x), PendingAfter(f, pending, b, Write(o, x)), Applied(flat, Write(Pos(b, o), x)))
  {
    if MustFlush(f, b) {
      SwitchBlock(f, pending, flat, b, c, o, x);
    } else {
      StayOnBlock(f, pending, flat, b, c, o, x);
    }
  }

  /** No block lies behind the end of the file. */
  lemma {:induction false} LastBlock(stored: Blocks, size: nat, k: nat)
    requires Bounded(stored, size) && k in stored
    ensures k <= BlockOf(size)
  {
    assert Pos(k, |stored[k]|) <= size;
  }

  ghost predicate Deleted<T>(m: map<nat, T>, m': map<nat, T>, first: nat, last: nat) {
    && (forall k :: k in m' <==> k in m && !(first <= k <= last))
    && (forall k :: k in m' ==> m'[k] == m[k])
  }

  lemma {:induction false} ShrinkKeeps(f: FileState, flat: seq<Byte>, stored: Blocks, cache: Cache, f': FileState)
    requires Ok(f, [], flat) && !Unflushed(f.cache, f.dirty) && f'.size < f.size && f'.dirty == f.dirty
    requires
      var b := BlockOf(f'.size);
      && stored == f.stored[b := Resize(Stored(f.stored, b), InBlock(f'.size))]
      && (forall k :: k in cache ==> cache[k] == Info(false, Stored(stored, k), []))
      && Deleted(stored, f'.stored, b + 1, BlockOf(f.size)) && Deleted(cache, f'.cache, b + 1, BlockOf(f.size))
    ensures Ok(f', [], Applied(flat, Truncate(f'.size)))
  {
    forall k: nat | k in f.stored ensures k <= BlockOf(f.size) {
      LastBlock(f.stored, f.size, k);
    }
    assert Cut(f.stored, f'.stored, f'.size);
    CutKeeps(f.stored, f.cache, f.dirty, flat, f'.stored, f'.cache, f'.size);
  }

  lemma {:induction false} ExtendKeeps(f: FileState, flat: seq<Byte>, f': FileState)
    requires Ok(f, [], flat) && !Unflushed(f.cache, f.dirty) && f'.size >= f.size && f'.dirty == f.dirty
    requires Deleted(f.stored, f'.stored, BlockOf(f'.size) + 1, BlockOf(f.size))
    requires Deleted(f.cache, f'.cache, BlockOf(f'.size) + 1, BlockOf(f.size))
    ensures Ok(f', [], Applied(flat, Truncate(f'.size)))
  {
    assert f'.stored == f.stored && f'.cache == f.cache;
    GrowKeeps(f.stored, f.cache, f.dirty, flat, f'.size);
  }

  // ---------------------------------------------------------------------------------------------
  // Reading
  // ---------------------------------------------------------------------------------------------

  /** The copy a read takes its bytes from: the cached block, or else the stored one. */
  function ReadCopy(f: FileState, b: nat): seq<Byte> {
    if b in f.cache then f.cache[b].d else Stored(f.stored, b)
  }

  /** A stored byte that an unflushed block hides: the block was not read when the file grew into it, and no pending
    write covers the byte. */
  ghost predicate Hidden(f: FileState, pending: seq<Update>, b: nat, j: nat) {
    && f.dirty == Some(b) && Unflushed(f.cache, f.dirty) && f.cache[b].blank
    && !Covered(pending, j) && At(Stored(f.stored, b), j) != 0
  }

  /** Of an unflushed block, a read returns the file's bytes, except that hidden ones read as zeros. */
  lemma {:induction false} UnflushedByte(f: FileState, pending: seq<Update>, flat: seq<Byte>, b: nat, j: nat)
    requires Ok(f, pending, flat) && Unflushed(f.cache, f.dirty) && f.dirty == Some(b) && j < BLOCK
    ensures At(ReadCopy(f, b), j) == if Hidden(f, pending, b, j) then 0 else At(flat, Pos(b, j))
    ensures Hidden(f, pending, b, j) ==> At(flat, Pos(b, j)) != 0
  {
    var content := Stored(f.stored, b);
    assert ShownAt(f.stored, b, pending, flat, b, j);
    WritesDecide(content, [], pending, j);
    WritesDecide([], content, pending, j);
  }

  lemma {:induction false} CleanByte(f: FileState, pending: seq<Update>, flat: seq<Byte>, b: nat, j: nat)
    requires Ok(f, pending, flat) && !(Unflushed(f.cache, f.dirty) && f.dirty == Some(b)) && j < BLOCK
    ensures At(ReadCopy(f, b), j) == At(flat, Pos(b, j))
  {
    assert ShownAt(f.stored, DirtyBlock(f.dirty), pending, flat, b, j);
  }

  /** A byte returned for byte j of block b is the file's, unless the file's is hidden. */
  ghost predicate RightOrHidden(f: FileState, pending: seq<Update>, flat: seq<Byte>, b: nat, j: nat, byte: Byte) {
    byte == At(flat, Pos(b, j)) <==> !Hidden(f, pending, b, j)
  }

  /** A read returns the file's byte exactly when no unflushed block hides it. */
  lemma {:induction false} ReadExact(f: FileState, pending: seq<Update>, flat: seq<Byte>, b: nat, j: nat)
    requires Ok(f, pending, flat) && j < BLOCK
    ensures RightOrHidden(f, pending, flat, b, j, At(ReadCopy(f, b), j))
  {
    if Unflushed(f.cache, f.dirty) && f.dirty == Some(b) {
      UnflushedByte(f, pending, flat, b, j);
    } else {
      CleanByte(f, pending, flat, b, j);
    }
  }

  /** What a read returns from place o of block b on: the bytes of the copy, right unless they are hidden. */
  ghost predicate ReadFrom(f: FileState, pending: seq<Update>, flat: seq<Byte>, b: nat, o: nat, buf: seq<Byte>) {
    forall i :: 0 <= i < |buf| ==>
      buf[i] == At(ReadCopy(f, b), o + i) && RightOrHidden(f, pending, flat, b, o + i, buf[i])
  }

  lemma {:induction false} RangeExact(
      f: FileState, pending: seq<Update>, flat: seq<Byte>, b: nat, o: nat, buf: seq<Byte>)
    requires Ok(f, pending, flat) && o + |buf| <= BLOCK
    requires forall i :: 0 <= i < |buf| ==> buf[i] == At(ReadCopy(f, b), o + i)
    ensures ReadFrom(f, pending, flat, b, o, buf)
  {
    forall i | 0 <= i < |buf| ensures RightOrHidden(f, pending, flat, b, o + i, buf[i]) {
      ReadExact(f, pending, flat, b, o + i);
    }
  }

  // ---------------------------------------------------------------------------------------------
  // A run in which a read is wrong
  // ---------------------------------------------------------------------------------------------

  /** Writing behind the stored bytes of a block that is not cached hides them. */
  lemma {:induction false} GrowingWriteHides(f: FileState, flat: seq<Byte>, b: nat, o: nat, x: seq<Byte>, j: nat)
    requires Ok(f, [], flat) && !Unflushed(f.cache, f.dirty) && b !in f.cache && x != [] && o + |x| <= BLOCK
    requires j < o && At(flat, Pos(b, j)) != 0
    ensures
      var f' := WriteState(f, b, CopyFor(f, b, true), o, x);
      && Ok(f', [Write(o, x)], Applied(flat, Write(Pos(b, o), x)))
      && Hidden(f', [Write(o, x)], b, j)
  {
    StartKeeps(f, flat, b, Info(true, [], []), o, x);
    assert ShownAt(f.stored, DirtyBlock(f.dirty), [], flat, b, j);
  }

  function NewFile(): FileState {
    FileState(0, map[], map[], None)
  }

  /** Append a byte, let its block leave the cache, and write behind it: reading the first byte returns 0. */
  lemma {:induction false} HiddenByteRun(y: Byte, z: Byte)
    requires y != 0
    ensures
      var f1 := WriteState(NewFile(), 0, CopyFor(NewFile(), 0, true), 0, [y]);
      && FlushReady(f1)
      && var f2 := FlushState(f1);
      var f3 := f2.(cache := f2.cache - {0});
      var f4 := WriteState(f3, 0, CopyFor(f3, 0, true), 1, [z]);
      At(ReadCopy(f4, 0), 0) == 0 && At(ReadCopy(f3, 0), 0) == y
  {
    var f0 := NewFile();
    assert Ok(f0, [], []);
    StartKeeps(f0, [], 0, Info(true, [], []), 0, [y]);
    var flat1 := Applied([], Write(Pos(0, 0), [y]));
    AppliedIs([], Write(Pos(0, 0), [y]), 0);
    var f1 := WriteState(f0, 0, CopyFor(f0, 0, true), 0, [y]);
    FlushStateKeeps(f1, [Write(0, [y])], flat1);
    var f2 := FlushState(f1);
    var f3 := f2.(cache := f2.cache - {0});
    assert Ok(f3, [], flat1);
    CleanByte(f3, [], flat1, 0, 0);
    GrowingWriteHides(f3, flat1, 0, 1, [z], 0);
    UnflushedByte(WriteState(f3, 0, CopyFor(f3, 0, true), 1, [z]), [Write(1, [z])],
      Applied(flat1, Write(Pos(0, 1), [z])), 0, 0);
  }

  // ---------------------------------------------------------------------------------------------
  // Deleting the blocks of an unlinked file
  // ---------------------------------------------------------------------------------------------

  /** The deletion loop of unlink: from the block the file ends in downwards, while some size is left. */
  method DeleteData(stored: Blocks, size: nat) returns (rest: Blocks)
    ensures rest == DataLeft(stored, size)
  {
    rest := stored;
    var left: int := size;
    while left > 0
      invariant left <= size && InBlock(size) - BLOCK <= left && (left > 0 ==> InBlock(left) == InBlock(size))
      invariant left <= 0 ==> left == InBlock(size) - BLOCK || (left == 0 && InBlock(size) == 0)
      invariant rest.Keys == set k | k in stored && !(left < Pos(k, InBlock(size)) <= size && Pos(k, InBlock(size)) > 0)
      invariant forall k :: k in rest ==> rest[k] == stored[k]
    {
      rest := rest - {BlockOf(left)};
      left := left - BLOCK;
    }
  }

  /** What is left: blocks behind the end of the file, and block 0 if the size is a multiple of the block size. */
  function DataLeft(stored: Blocks, size: nat): Blocks {
    map k | k in stored && !(0 < Pos(k, InBlock(size)) <= size) :: stored[k]
  }

  /** Of a file's blocks, all are deleted exactly when the size is not a multiple of the block size or there is no
    block 0; otherwise block 0 stays behind. */
  lemma {:induction false} DeletionExact(stored: Blocks, size: nat)
    requires Bounded(stored, size)
    ensures DataLeft(stored, size) == map[] <==> InBlock(size) != 0 || 0 !in stored
    ensures forall k :: k in DataLeft(stored, size) ==> k == 0
  {
    forall k | k in DataLeft(stored, size) ensures k == 0 && InBlock(size) == 0 {
      LastBlock(stored, size, k);
      assert Pos(BlockOf(size), InBlock(size)) == size;
    }
    if InBlock(size) == 0 && 0 in stored {
      assert 0 in DataLeft(stored, size);
    }
  }
}
