/** One data block: writes are applied to a local copy and remembered, and merged onto the stored block when another
  client was faster. */
module BlockData {
  import opened Prelude
  import opened Bytes

  const BLOCK_MAX := 1024 * 1024

  /** What the queue remembers of an update: where it starts and how long it is; length 0 stands for a truncation. */
  type Extent = (nat, nat)

  predicate AllWrites(updates: seq<Extent>, size: nat) {
    forall i :: 0 <= i < |updates| ==> updates[i].1 > 0 && updates[i].0 + updates[i].1 <= size
  }

  predicate OneTruncation(updates: seq<Extent>) {
    |updates| == 1 && updates[0].1 == 0
  }

  /** The queue in front of a merge: writes that all lie within the local copy, or a single truncation. */
  predicate Mergeable(updates: seq<Extent>, size: nat) {
    AllWrites(updates, size) || OneTruncation(updates)
  }

  /** Copying the written extents from the local copy, one after the other. */
  function Copied(d: seq<Byte>, updates: seq<Extent>, onto: seq<Byte>): (r: seq<Byte>)
    requires AllWrites(updates, |d|) && |onto| >= |d|
    ensures |r| == |onto|
    decreases |updates|
  {
    if updates == [] then onto else
    var (o, n) := updates[|updates| - 1];
    Overwrite(Copied(d, updates[..|updates| - 1], onto), o, d[o..o + n])
  }

  /** mergeDataChanges: the new local copy. */
  function Merged(d: seq<Byte>, updates: seq<Extent>, latest: seq<Byte>): seq<Byte>
    requires Mergeable(updates, |d|)
  {
    var base := Resize(latest, Max(|latest|, |d|));
    if OneTruncation(updates) then Resize(base, updates[0].0) else Copied(d, updates, base)
  }

  /** One step of the loop: std::string::replace throws when the position lies behind either string and copies what
    there is of the extent otherwise. */
  function MergeStep(d: seq<Byte>, x: Extent, r: seq<Byte>): Option<seq<Byte>> {
    var (o, n) := x;
    if n == 0 then Some(Resize(r, o))
    else if o > |r| || o > |d| then None
    else Some(r[..o] + d[o..Min(o + n, |d|)] + r[Min(o + n, |r|)..])
  }

  function Min(a: nat, b: nat): nat {
    if a < b then a else b
  }

  function MergeSteps(d: seq<Byte>, updates: seq<Extent>, onto: seq<Byte>): Option<seq<Byte>>
    decreases |updates|
  {
    if updates == [] then Some(onto) else
    var before := MergeSteps(d, updates[..|updates| - 1], onto);
    if before.None? then None else MergeStep(d, updates[|updates| - 1], before.value)
  }

  class DataInfo {
    var d: seq<Byte>
    var updates: seq<Extent>

    constructor (data: seq<Byte>)
      ensures d == data && updates == []
    {
      d, updates := data, [];
    }

    method UpdateData(data: seq<Byte>, offset: nat)
      requires offset + |data| <= BLOCK_MAX
      modifies this
      ensures d == Applied(old(d), Write(offset, data)) && updates == old(updates) + [(offset, |data|)]
    {
      d := Resize(d, Max(|d|, offset + |data|));
      d := Overwrite(d, offset, data);
      updates := updates + [(offset, |data|)];
    }

    method TruncateTo(offset: nat)
      requires offset <= BLOCK_MAX
      modifies this
      ensures d == Applied(old(d), Truncate(offset)) && updates == old(updates) + [(offset, 0)]
    {
      d := Resize(d, offset);
      updates := updates + [(offset, 0)];
    }

    /** The loop of mergeDataChanges; it may throw on a queue that mixes writes and truncations, and then leaves the
      local copy alone. */
    method MergeDataChanges(latest: seq<Byte>) returns (ok: bool)
      modifies `d
      ensures
        var m := MergeSteps(old(d), updates, Resize(latest, Max(|latest|, |old(d)|)));
        ok == m.Some? && d == if ok then m.value else old(d)
      ensures Mergeable(updates, |old(d)|) ==> ok && d == Merged(old(d), updates, latest)
    {
      if Mergeable(updates, |d|) { MergeIsMerged(d, updates, latest); }
      var r := MergeLoop(d, updates, Resize(latest, Max(|latest|, |d|)));
      ok := r.Some?;
      if ok { d := r.value; }
    }
  }

  method MergeLoop(d: seq<Byte>, updates: seq<Extent>, onto: seq<Byte>) returns (r: Option<seq<Byte>>)
    ensures r == MergeSteps(d, updates, onto)
  {
    r := Some(onto);
    for k := 0 to |updates|
      invariant r.Some? && MergeSteps(d, updates[..k], onto) == r
    {
      MergeStepsNext(d, updates, k, onto);
      r := MergeStep(d, updates[k], r.value);
      if r.None? {
        MergeStepsStop(d, updates, k + 1, onto);
        return;
      }
    }
    assert updates[..|updates|] == updates;
  }

  lemma {:induction false} MergeStepsNext(d: seq<Byte>, updates: seq<Extent>, k: nat, onto: seq<Byte>)
    requires k < |updates| && MergeSteps(d, updates[..k], onto).Some?
    ensures MergeSteps(d, updates[..k + 1], onto) == MergeStep(d, updates[k], MergeSteps(d, updates[..k], onto).value)
  {
    assert updates[..k + 1][..k] == updates[..k];
  }

  lemma {:induction false} MergeStepsStop(d: seq<Byte>, updates: seq<Extent>, k: nat, onto: seq<Byte>)
    requires k <= |updates| && MergeSteps(d, updates[..k], onto).None?
    ensures MergeSteps(d, updates, onto).None?
    decreases |updates|
  {
    if k == |updates| {
      assert updates[..k] == updates;
    } else {
      var init := updates[..|updates| - 1];
      assert init[..k] == updates[..k];
      MergeStepsStop(d, init, k, onto);
    }
  }

  lemma {:induction false} MergeStepsCopy(d: seq<Byte>, updates: seq<Extent>, onto: seq<Byte>)
    requires AllWrites(updates, |d|) && |onto| >= |d|
    ensures MergeSteps(d, updates, onto) == Some(Copied(d, updates, onto))
    decreases |updates|
  {
    if updates != [] { MergeStepsCopy(d, updates[..|updates| - 1], onto); }
  }

  lemma {:induction false} MergeIsMerged(d: seq<Byte>, updates: seq<Extent>, latest: seq<Byte>)
    requires Mergeable(updates, |d|)
    ensures MergeSteps(d, updates, Resize(latest, Max(|latest|, |d|))) == Some(Merged(d, updates, latest))
  {
    if OneTruncation(updates) {
      assert updates[..0] == [];
    } else {
      MergeStepsCopy(d, updates, Resize(latest, Max(|latest|, |d|)));
    }
  }

  // ---------------------------------------------------------------------------------------------
  // Merging is replaying
  // ---------------------------------------------------------------------------------------------

  function ExtentOf(u: Update): Extent {
    match u
    case Write(o, x) => (o, |x|)
    case Truncate(n) => (n, 0)
  }

  function Extents(us: seq<Update>): (r: seq<Extent>)
    ensures |r| == |us|
    ensures forall i :: 0 <= i < |us| ==> r[i] == ExtentOf(us[i])
  {
    seq(|us|, i requires 0 <= i < |us| => ExtentOf(us[i]))
  }

  /** A batch of updates between two flushes: writes of at least one byte, or one truncation. */
  predicate Batch(us: seq<Update>) {
    || (forall i :: 0 <= i < |us| ==> us[i].Write? && us[i].data != [])
    || (|us| == 1 && us[0].Truncate?)
  }

  /** The local copy shows its queued updates: they were applied to some older content of the block. */
  ghost predicate Shows(d: seq<Byte>, base: seq<Byte>, us: seq<Update>) {
    && Batch(us) && Same(d, Replayed(base, us)) && Mergeable(Extents(us), |d|)
  }

  predicate Covers(u: Update, i: nat) {
    u.Write? && u.offset <= i < u.offset + |u.data|
  }

  /** Some write reaches position i. */
  ghost predicate Covered(us: seq<Update>, i: nat) {
    exists k :: 0 <= k < |us| && Covers(us[k], i)
  }

  lemma {:induction false} CoveredLast(us: seq<Update>, i: nat)
    requires us != []
    ensures Covered(us, i) <==> Covered(us[..|us| - 1], i) || Covers(us[|us| - 1], i)
  {
    var last := |us| - 1;
    assert forall k :: 0 <= k < last ==> us[..last][k] == us[k];
    if Covers(us[last], i) { assert Covered(us, i); }
    if Covered(us[..last], i) {
      var k :| 0 <= k < last && Covers(us[..last][k], i);
      assert Covers(us[k], i);
    }
  }

  predicate Writes(us: seq<Update>) {
    forall i :: 0 <= i < |us| ==> us[i].Write? && us[i].data != []
  }

  /** Where a write reaches, the outcome does not depend on what was there before; elsewhere it is what was there. */
  lemma {:induction false} WritesDecide(s: seq<Byte>, t: seq<Byte>, us: seq<Update>, i: nat)
    requires Writes(us)
    ensures Covered(us, i) ==> At(Replayed(s, us), i) == At(Replayed(t, us), i)
    ensures !Covered(us, i) ==> At(Replayed(s, us), i) == At(s, i)
    decreases |us|
  {
    if us != [] {
      var init, u := us[..|us| - 1], us[|us| - 1];
      CoveredLast(us, i);
      WritesDecide(s, t, init, i);
      AppliedIs(Replayed(s, init), u, i);
      AppliedIs(Replayed(t, init), u, i);
    }
  }

  lemma {:induction false} CopiedAt(d: seq<Byte>, us: seq<Update>, onto: seq<Byte>, i: nat)
    requires Writes(us) && AllWrites(Extents(us), |d|) && |onto| >= |d|
    ensures At(Copied(d, Extents(us), onto), i) == if Covered(us, i) then At(d, i) else At(onto, i)
    decreases |us|
  {
    if us != [] {
      var last := |us| - 1;
      var u := us[last];
      ExtentsInit(us);
      CoveredLast(us, i);
      CopiedAt(d, us[..last], onto, i);
      OverwriteAt(Copied(d, Extents(us[..last]), onto), u.offset, d[u.offset..u.offset + |u.data|], i);
    }
  }

  lemma {:induction false} ExtentsInit(us: seq<Update>)
    requires us != []
    ensures Extents(us)[..|us| - 1] == Extents(us[..|us| - 1])
  {}

  /** Copying the written extents out of the final local copy equals replaying the writes in order on the latest
    content, however they overlap and whatever content they were first applied to. */
  lemma {:induction false} MergeReplaysAt(d: seq<Byte>, base: seq<Byte>, us: seq<Update>, latest: seq<Byte>, i: nat)
    requires Writes(us) && AllWrites(Extents(us), |d|) && At(d, i) == At(Replayed(base, us), i)
    ensures At(Copied(d, Extents(us), Resize(latest, Max(|latest|, |d|))), i) == At(Replayed(latest, us), i)
  {
    var onto := Resize(latest, Max(|latest|, |d|));
    CopiedAt(d, us, onto, i);
    ResizeAt(latest, |onto|, i);
    WritesDecide(base, latest, us, i);
    WritesDecide(latest, base, us, i);
  }

  lemma {:induction false} TruncationReplays(d: seq<Byte>, latest: seq<Byte>, n: nat)
    ensures Same(Merged(d, [(n, 0)], latest), Applied(latest, Truncate(n)))
  {
    var onto := Resize(latest, Max(|latest|, |d|));
    forall i: nat ensures At(Merged(d, [(n, 0)], latest), i) == At(Applied(latest, Truncate(n)), i) {
      ResizeAt(latest, |onto|, i);
      ResizeAt(onto, n, i);
      AppliedIs(latest, Truncate(n), i);
    }
  }

  /** A queue that is a batch holds writes only, or one truncation only. */
  lemma {:induction false} BatchKinds(us: seq<Update>)
    requires Batch(us)
    ensures OneTruncation(Extents(us)) ==> |us| == 1 && us == [us[0]] && us[0].Truncate?
    ensures !OneTruncation(Extents(us)) ==> Writes(us)
  {
    if |us| == 1 { assert Extents(us)[0] == ExtentOf(us[0]); }
  }

  lemma {:induction false} MergeReplays(d: seq<Byte>, base: seq<Byte>, us: seq<Update>, latest: seq<Byte>)
    requires Shows(d, base, us)
    ensures Shows(Merged(d, Extents(us), latest), latest, us)
  {
    BatchKinds(us);
    if OneTruncation(Extents(us)) {
      ReplayedSingle(latest, us[0]);
      TruncationReplays(d, latest, us[0].size);
      assert Extents(us) == [(us[0].size, 0)];
    } else {
      forall i: nat ensures At(Merged(d, Extents(us), latest), i) == At(Replayed(latest, us), i) {
        MergeReplaysAt(d, base, us, latest, i);
      }
    }
  }

  /** Queueing one more update on the local copy. */
  lemma {:induction false} QueueShows(d: seq<Byte>, base: seq<Byte>, us: seq<Update>, u: Update)
    requires Shows(d, base, us) && Batch(us + [u])
    ensures Shows(Applied(d, u), base, us + [u])
  {
    AppliedSame(d, Replayed(base, us), u);
    ReplayedOne(base, us, u);
    QueueMergeable(d, us, u);
  }

  lemma {:induction false} QueueMergeable(d: seq<Byte>, us: seq<Update>, u: Update)
    requires Batch(us) && Batch(us + [u]) && Mergeable(Extents(us), |d|)
    ensures Mergeable(Extents(us + [u]), |Applied(d, u)|)
  {
    assert (us + [u])[|us|] == u;
    BatchKinds(us + [u]);
    if u.Write? {
      assert Writes(us + [u]);
      assert forall i :: 0 <= i < |us| ==> us[i] == (us + [u])[i];
      BatchKinds(us);
      assert forall i :: 0 <= i < |us| ==> Extents(us)[i] == Extents(us + [u])[i];
    } else {
      assert !Writes(us + [u]);
    }
  }

  /** A queued write of no bytes is taken for a truncation. A single write is merged correctly exactly when it has bytes
    or the latest content has nothing but zeros from its offset on. */
  lemma {:induction false} SingleWriteExact(base: seq<Byte>, o: nat, x: seq<Byte>, latest: seq<Byte>)
    ensures
      var w := Write(o, x);
      Same(Merged(Applied(base, w), [ExtentOf(w)], latest), Applied(latest, w))
      <==> x != [] || forall i: nat :: o <= i ==> At(latest, i) == 0
  {
    var w := Write(o, x);
    var d := Applied(base, w);
    ReplayedSingle(base, w);
    ReplayedSingle(latest, w);
    assert Extents([w]) == [ExtentOf(w)];
    if x != [] {
      MergeReplays(d, base, [w], latest);
    } else {
      TruncationReplays(d, latest, o);
      forall i: nat ensures At(Applied(latest, w), i) == At(latest, i)
        && At(Applied(latest, Truncate(o)), i) == if i < o then At(latest, i) else 0
      {
        AppliedIs(latest, w, i);
        AppliedIs(latest, Truncate(o), i);
      }
    }
  }

  // ---------------------------------------------------------------------------------------------
  // Queues of every kind
  // ---------------------------------------------------------------------------------------------

  /** The size of a block after the queued updates, had each write been copied in full. */
  function Reach(size: nat, updates: seq<Extent>): nat
    decreases |updates|
  {
    if updates == [] then size else
    var (o, n) := updates[|updates| - 1];
    if n == 0 then o else Max(Reach(size, updates[..|updates| - 1]), o + n)
  }

  /** At its turn no write starts behind the end of the block, and none starts behind the end of the local copy. */
  ghost predicate Unbroken(updates: seq<Extent>, size: nat, local: nat) {
    forall k :: 0 <= k < |updates| && updates[k].1 > 0 ==>
      updates[k].0 <= local && updates[k].0 <= Reach(size, updates[..k])
  }

  lemma {:induction false} UnbrokenLast(updates: seq<Extent>, size: nat, local: nat)
    requires updates != []
    ensures
      var init, (o, n) := updates[..|updates| - 1], updates[|updates| - 1];
      Unbroken(updates, size, local)
      <==> Unbroken(init, size, local) && (n > 0 ==> o <= local && o <= Reach(size, init))
  {
    var last := |updates| - 1;
    assert forall k :: 0 <= k < last ==> updates[..last][..k] == updates[..k];
    if Unbroken(updates, size, local) {
      forall k | 0 <= k < last && updates[..last][k].1 > 0
        ensures updates[..last][k].0 <= local && updates[..last][k].0 <= Reach(size, updates[..last][..k])
      {
        assert updates[k].1 > 0;
      }
    }
  }

  /** When mergeDataChanges throws, for every local copy and every queue. Extents that the copy no longer holds in full
    shift the rest of the block, but only behind the end of the copy. */
  lemma {:induction false} MergeThrowsExactly(d: seq<Byte>, updates: seq<Extent>, onto: seq<Byte>)
    requires |onto| >= |d|
    ensures MergeSteps(d, updates, onto).Some? <==> Unbroken(updates, |onto|, |d|)
    ensures
      var m := MergeSteps(d, updates, onto);
      m.Some? ==> Min(|m.value|, |d|) == Min(Reach(|onto|, updates), |d|)
    decreases |updates|
  {
    if updates != [] {
      MergeThrowsExactly(d, updates[..|updates| - 1], onto);
      UnbrokenLast(updates, |onto|, |d|);
    }
  }

  /** The update that an extent stands for: a write of no bytes is taken for a truncation. */
  function Taken(u: Update): Update {
    if u.Write? && u.data == [] then Truncate(u.offset) else u
  }

  function TakenAll(us: seq<Update>): (r: seq<Update>)
    ensures |r| == |us|
    ensures forall i :: 0 <= i < |us| ==> r[i] == Taken(us[i])
  {
    seq(|us|, i requires 0 <= i < |us| => Taken(us[i]))
  }

  lemma {:induction false} TakenInit(us: seq<Update>)
    requires us != []
    ensures TakenAll(us)[..|us| - 1] == TakenAll(us[..|us| - 1])
  {}

  /** Inside of the local copy: the last update that reaches a byte decides it. */
  lemma {:induction false} MergeWithin(d: seq<Byte>, base: seq<Byte>, us: seq<Update>, onto: seq<Byte>, i: nat)
    requires MergeSteps(d, Extents(us), onto).Some? && i < |d| && At(d, i) == At(Replayed(base, us), i)
    ensures At(MergeSteps(d, Extents(us), onto).value, i) == At(Replayed(onto, TakenAll(us)), i)
    decreases |us|
  {
    if us != [] {
      var init, u := us[..|us| - 1], us[|us| - 1];
      ExtentsInit(us);
      TakenInit(us);
      AppliedIs(Replayed(base, init), u, i);
      AppliedIs(Replayed(onto, TakenAll(init)), Taken(u), i);
      MergeStepWithin(d, ExtentOf(u), MergeSteps(d, Extents(init), onto).value, i);
      if At(d, i) == At(Replayed(base, init), i) { MergeWithin(d, base, init, onto, i); }
    }
  }

  lemma {:induction false} MergeStepWithin(d: seq<Byte>, x: Extent, r: seq<Byte>, i: nat)
    requires MergeStep(d, x, r).Some? && i < |d|
    ensures
      At(MergeStep(d, x, r).value, i) ==
      if x.1 == 0 then (if i < x.0 then At(r, i) else 0)
      else if x.0 <= i < x.0 + x.1 then d[i] else At(r, i)
  {
    if x.1 == 0 { ResizeAt(r, x.0, i); }
  }

  predicate Alike(s: seq<Byte>, t: seq<Byte>, i: nat) {
    |s| == |t| && At(s, i) == At(t, i)
  }

  lemma {:induction false} MergeStepBehind(d: seq<Byte>, u: Update, r: seq<Byte>, t: seq<Byte>, i: nat)
    requires |Applied([], u)| <= |d| <= i && MergeStep(d, ExtentOf(u), r).Some?
    requires u.Write? ==> Alike(r, t, i)
    ensures Alike(MergeStep(d, ExtentOf(u), r).value, Applied(t, Taken(u)), i)
  {
    AppliedIs(t, Taken(u), i);
    if Taken(u).Truncate? { ResizeAt(r, ExtentOf(u).0, i); }
  }

  /** Behind the local copy: what was shifted there was cut off again by the truncation that made the copy shorter. */
  lemma {:induction false} MergeBehind(d: seq<Byte>, base: seq<Byte>, us: seq<Update>, onto: seq<Byte>, i: nat)
    requires MergeSteps(d, Extents(us), onto).Some? && |Replayed(base, us)| <= |d| <= i
    ensures Alike(MergeSteps(d, Extents(us), onto).value, Replayed(onto, TakenAll(us)), i)
    decreases |us|
  {
    if us != [] {
      var init, u := us[..|us| - 1], us[|us| - 1];
      ExtentsInit(us);
      TakenInit(us);
      var r, t := MergeSteps(d, Extents(init), onto).value, Replayed(onto, TakenAll(init));
      if u.Write? { MergeBehind(d, base, init, onto, i); }
      MergeStepBehind(d, u, r, t, i);
    }
  }

  /** What mergeDataChanges computes, for every queue: it throws, or it replays the queue on the latest content with
    each write of no bytes taken for a truncation. */
  lemma {:induction false} MergeExact(base: seq<Byte>, us: seq<Update>, onto: seq<Byte>)
    requires |onto| >= |Replayed(base, us)|
    ensures
      var d := Replayed(base, us);
      MergeSteps(d, Extents(us), onto) ==
      if Unbroken(Extents(us), |onto|, |d|) then Some(Replayed(onto, TakenAll(us))) else None
    ensures (forall i :: 0 <= i < |us| ==> us[i].Truncate? || us[i].data != []) ==> TakenAll(us) == us
  {
    var d := Replayed(base, us);
    MergeThrowsExactly(d, Extents(us), onto);
    if Unbroken(Extents(us), |onto|, |d|) {
      var m, r := MergeSteps(d, Extents(us), onto).value, Replayed(onto, TakenAll(us));
      MergeBehind(d, base, us, onto, |d|);
      forall i | 0 <= i < |m| ensures m[i] == r[i] {
        assert m[i] == At(m, i) && r[i] == At(r, i);
        if i < |d| { MergeWithin(d, base, us, onto, i); } else { MergeBehind(d, base, us, onto, i); }
      }
      assert m == r;
    }
  }

  predicate Touches(u: Update, i: nat) {
    Covers(u, i) || (u.Truncate? && u.size <= i)
  }

  /** A write of no bytes lies in front of byte i and nothing later decides that byte. */
  predicate Cut(us: seq<Update>, i: nat)
    decreases |us|
  {
    us != [] &&
    var u := us[|us| - 1];
    (u.Write? && u.data == [] && u.offset <= i) || (!Touches(u, i) && Cut(us[..|us| - 1], i))
  }

  lemma {:induction false} CutAt(s: seq<Byte>, us: seq<Update>, i: nat)
    ensures At(Replayed(s, TakenAll(us)), i) == if Cut(us, i) then 0 else At(Replayed(s, us), i)
    decreases |us|
  {
    if us != [] {
      var init, u := us[..|us| - 1], us[|us| - 1];
      TakenInit(us);
      AppliedIs(Replayed(s, init), u, i);
      AppliedIs(Replayed(s, TakenAll(init)), Taken(u), i);
      CutAt(s, init, i);
    }
  }

  /** A queue is merged as if it had been replayed on the latest content exactly when the merge does not throw and the
    outcome has nothing but zeros where a write of no bytes cuts the block. */
  lemma {:induction false} MergeReplaysExactly(base: seq<Byte>, us: seq<Update>, latest: seq<Byte>)
    ensures
      var d := Replayed(base, us);
      var onto := Resize(latest, Max(|latest|, |d|));
      var m := MergeSteps(d, Extents(us), onto);
      && (m.Some? <==> Unbroken(Extents(us), |onto|, |d|))
      && (m.Some? ==>
        (Same(m.value, Replayed(latest, us)) <==> forall i: nat :: Cut(us, i) ==> At(Replayed(latest, us), i) == 0))
  {
    var d := Replayed(base, us);
    var onto := Resize(latest, Max(|latest|, |d|));
    MergeExact(base, us, onto);
    forall i: nat ensures At(onto, i) == At(latest, i) { ResizeAt(latest, |onto|, i); }
    ReplayedSame(onto, latest, TakenAll(us));
    forall i: nat
      ensures At(Replayed(onto, TakenAll(us)), i) == if Cut(us, i) then 0 else At(Replayed(latest, us), i)
    {
      CutAt(latest, us, i);
    }
  }

  /** A write of some bytes next to a truncation, in either order: the merge throws exactly when the write starts behind
    the truncated size, whatever the block held and holds. */
  lemma {:induction false} MixedPairThrows(base: seq<Byte>, n: nat, o: nat, x: seq<Byte>, latest: seq<Byte>)
    requires x != []
    ensures
      forall us | us in [[Truncate(n), Write(o, x)], [Write(o, x), Truncate(n)]] ::
        var d := Replayed(base, us);
        MergeSteps(d, Extents(us), Resize(latest, Max(|latest|, |d|))).None? <==> o > n
  {
    forall us | us in [[Truncate(n), Write(o, x)], [Write(o, x), Truncate(n)]]
      ensures
        var d := Replayed(base, us);
        MergeSteps(d, Extents(us), Resize(latest, Max(|latest|, |d|))).None? <==> o > n
    {
      var d := Replayed(base, us);
      var es, onto := Extents(us), Resize(latest, Max(|latest|, |d|));
      MergeThrowsExactly(d, es, onto);
      assert us[..1] == [us[0]] && es[..1] == [ExtentOf(us[0])] && es[..0] == [];
      ReplayedSingle(base, us[0]);
      UnbrokenLast(es, |onto|, |d|);
      UnbrokenLast(es[..1], |onto|, |d|);
    }
  }
}
