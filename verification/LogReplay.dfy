/** Folding a numbered log into a state. */
module LogReplay {

  /** The state after replaying entries on a state of the given version; entry i carries version + i + 1. */
  function Replay<S, E>(apply: (S, nat, E) -> S, s: S, version: nat, entries: seq<E>): S
    decreases |entries|
  {
    if entries == [] then s
    else
      var last := |entries| - 1;
      apply(Replay(apply, s, version, entries[..last]), version + |entries|, entries[last])
  }

  lemma {:induction false} ReplayOne<S, E>(apply: (S, nat, E) -> S, s: S, version: nat, entries: seq<E>, e: E)
    ensures Replay(apply, s, version, entries + [e])
      == apply(Replay(apply, s, version, entries), version + |entries| + 1, e)
  {
    assert (entries + [e])[..|entries|] == entries;
  }

  /** Replaying two stretches of a log one after the other is replaying them together. */
  lemma {:induction false} ReplayConcat<S, E>(apply: (S, nat, E) -> S, s: S, version: nat, a: seq<E>, b: seq<E>)
    ensures Replay(apply, s, version, a + b) == Replay(apply, Replay(apply, s, version, a), version + |a|, b)
    decreases |b|
  {
    if b == [] {
      assert a + b == a;
    } else {
      var last := |b| - 1;
      ReplayConcat(apply, s, version, a, b[..last]);
      assert (a + b)[..|a + b| - 1] == a + b[..last];
    }
  }

  /** Every entry was allowed in the state it was applied to. */
  ghost predicate Admissible<S, E>(
      apply: (S, nat, E) -> S, allowed: (S, E) -> bool, s: S, version: nat, entries: seq<E>)
    decreases |entries|
  {
    entries == [] ||
    var last := |entries| - 1;
    Admissible(apply, allowed, s, version, entries[..last])
      && allowed(Replay(apply, s, version, entries[..last]), entries[last])
  }

  /** What every allowed entry keeps holds after replaying any admissible log. */
  lemma {:induction false} ReplayKeeps<S(!new), E(!new)>(
      apply: (S, nat, E) -> S, allowed: (S, E) -> bool, inv: (S, nat) -> bool, s: S, version: nat, entries: seq<E>)
    requires inv(s, version)
    requires forall x, v: nat, e :: inv(x, v) && allowed(x, e) ==> inv(apply(x, v + 1, e), v + 1)
    requires Admissible(apply, allowed, s, version, entries)
    ensures inv(Replay(apply, s, version, entries), version + |entries|)
    decreases |entries|
  {
    if entries != [] {
      var last := |entries| - 1;
      ReplayKeeps(apply, allowed, inv, s, version, entries[..last]);
      var x := Replay(apply, s, version, entries[..last]);
      assert inv(apply(x, version + last + 1, entries[last]), version + last + 1);
    }
  }
}
