/** Byte strings that read as zero behind their end. */
module Bytes {
  import opened Prelude

  type Byte = b: int | 0 <= b < 256

  function Zeros(n: nat): (r: seq<Byte>)
    ensures |r| == n
    ensures forall i :: 0 <= i < n ==> r[i] == 0
  {
    seq(n, _ => 0)
  }

  function At(s: seq<Byte>, i: nat): Byte {
    if i < |s| then s[i] else 0
  }

  /** Equal when extended with zeros. */
  ghost predicate Same(s: seq<Byte>, t: seq<Byte>) {
    forall i: nat :: At(s, i) == At(t, i)
  }

  /** std::string::resize. */
  function Resize(s: seq<Byte>, n: nat): (r: seq<Byte>)
    ensures |r| == n
  {
    if n <= |s| then s[..n] else s + Zeros(n - |s|)
  }

  lemma {:induction false} ResizeAt(s: seq<Byte>, n: nat, i: nat)
    ensures At(Resize(s, n), i) == if i < n then At(s, i) else 0
  {}

  /** std::string::replace of as many bytes as are put in their place. */
  function Overwrite(s: seq<Byte>, offset: nat, data: seq<Byte>): (r: seq<Byte>)
    requires offset + |data| <= |s|
    ensures |r| == |s|
  {
    s[..offset] + data + s[offset + |data|..]
  }

  lemma {:induction false} OverwriteAt(s: seq<Byte>, offset: nat, data: seq<Byte>, i: nat)
    requires offset + |data| <= |s|
    ensures At(Overwrite(s, offset, data), i) == if offset <= i < offset + |data| then data[i - offset] else At(s, i)
  {}

  datatype Update = Write(offset: nat, data: seq<Byte>) | Truncate(size: nat)

  function Applied(s: seq<Byte>, u: Update): (r: seq<Byte>)
    ensures |r| == if u.Write? then Max(|s|, u.offset + |u.data|) else u.size
  {
    match u
    case Write(o, x) => Overwrite(Resize(s, Max(|s|, o + |x|)), o, x)
    case Truncate(n) => Resize(s, n)
  }

  /** Byte i after an update, from byte i before it. */
  function AppliedAt(before: Byte, u: Update, i: nat): Byte {
    match u
    case Write(o, x) => if o <= i < o + |x| then x[i - o] else before
    case Truncate(n) => if i < n then before else 0
  }

  lemma {:induction false} AppliedIs(s: seq<Byte>, u: Update, i: nat)
    ensures At(Applied(s, u), i) == AppliedAt(At(s, i), u, i)
  {
    match u
    case Write(o, x) =>
      var t := Resize(s, Max(|s|, o + |x|));
      OverwriteAt(t, o, x, i);
      ResizeAt(s, |t|, i);
    case Truncate(n) => ResizeAt(s, n, i);
  }

  function Replayed(s: seq<Byte>, updates: seq<Update>): seq<Byte>
    decreases |updates|
  {
    if updates == [] then s else Applied(Replayed(s, updates[..|updates| - 1]), updates[|updates| - 1])
  }

  lemma {:induction false} ReplayedOne(s: seq<Byte>, updates: seq<Update>, u: Update)
    ensures Replayed(s, updates + [u]) == Applied(Replayed(s, updates), u)
  {
    assert (updates + [u])[..|updates|] == updates;
  }

  lemma {:induction false} ReplayedSingle(s: seq<Byte>, u: Update)
    ensures Replayed(s, [u]) == Applied(s, u)
  {
    assert [u][..0] == [];
  }

  lemma {:induction false} AppliedSame(s: seq<Byte>, t: seq<Byte>, u: Update)
    requires Same(s, t)
    ensures Same(Applied(s, u), Applied(t, u))
  {
    forall i: nat ensures At(Applied(s, u), i) == At(Applied(t, u), i) {
      AppliedIs(s, u, i);
      AppliedIs(t, u, i);
    }
  }

  lemma {:induction false} ReplayedSame(s: seq<Byte>, t: seq<Byte>, updates: seq<Update>)
    requires Same(s, t)
    ensures Same(Replayed(s, updates), Replayed(t, updates))
    decreases |updates|
  {
    if updates != [] {
      var last := |updates| - 1;
      ReplayedSame(s, t, updates[..last]);
      AppliedSame(Replayed(s, updates[..last]), Replayed(t, updates[..last]), updates[last]);
    }
  }

  lemma {:induction false} ReplayedConcat(s: seq<Byte>, a: seq<Update>, b: seq<Update>)
    ensures Replayed(s, a + b) == Replayed(Replayed(s, a), b)
    decreases |b|
  {
    if b == [] {
      assert a + b == a;
    } else {
      var init := b[..|b| - 1];
      ReplayedConcat(s, a, init);
      assert a + b == (a + init) + [b[|b| - 1]];
      ReplayedOne(s, a + init, b[|b| - 1]);
    }
  }
}
