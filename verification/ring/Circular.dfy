/** Bytes standing round the end of a storage area. */
module Circular {
  import opened RingLayout

  function Wrap(size: nat, x: nat): nat
    requires x < 2 * size
  {
    if x >= size then x - size else x
  }

  /** The bytes of `s` stand in the ring from position `at` on, round the end of the storage. */
  ghost predicate Around(store: Bytes, at: nat, s: Bytes) {
    && at < |store| && |s| <= |store|
    && forall k :: 0 <= k < |s| ==> store[Wrap(|store|, at + k)] == s[k]
  }

  /** Writing `t` behind `s`, round the end of the storage if need be, makes the ring hold `s + t`. */
  lemma {:induction false} AroundAppend(was: Bytes, now: Bytes, at: nat, s: Bytes, t: Bytes)
    requires Around(was, at, s) && |now| == |was| && |s| + |t| <= |was|
    requires var w := Wrap(|was|, at + |s|);
             var rem := |was| - w;
             now == if rem < |t| then t[rem..] + was[|t| - rem..w] + t[..rem] else was[..w] + t + was[w + |t|..]
    ensures Around(now, at, s + t)
  {
    var size := |was|;
    forall k | 0 <= k < |s + t|
      ensures now[Wrap(size, at + k)] == (s + t)[k]
    {
      if k < |s| { assert was[Wrap(size, at + k)] == s[k]; }
    }
  }

  lemma {:induction false} AroundDrop(store: Bytes, at: nat, s: Bytes, n: nat)
    requires Around(store, at, s) && n <= |s|
    ensures Around(store, Wrap(|store|, at + n), s[n..])
  {
    forall k | 0 <= k < |s[n..]|
      ensures store[Wrap(|store|, Wrap(|store|, at + n) + k)] == s[n..][k]
    {
      assert store[Wrap(|store|, at + (n + k))] == s[n + k];
    }
  }

  lemma {:induction false} AroundSlice(store: Bytes, at: nat, s: Bytes, n: nat)
    requires Around(store, at, s) && n <= |s| && at + n <= |store|
    ensures store[at..at + n] == s[..n]
  {
    forall k | 0 <= k < n ensures store[at + k] == s[k] {
      assert store[Wrap(|store|, at + k)] == s[k];
    }
  }
}
