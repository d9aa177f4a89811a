/** Running a byte string through a step function: the shape of both checksums of the system. */
module Folds {
  import opened Bytes

  function Fold<S>(step: (S, byte) -> S, start: S, bytes: seq<byte>): S {
    if |bytes| == 0 then start else Fold(step, step(start, bytes[0]), bytes[1..])
  }

  /** Feeding a string in two parts is feeding it whole. */
  lemma {:induction false} FoldConcat<S>(step: (S, byte) -> S, start: S, a: seq<byte>, b: seq<byte>)
    ensures Fold(step, start, a + b) == Fold(step, Fold(step, start, a), b)
    decreases |a|
  {
    if |a| == 0 {
      assert a + b == b;
    } else {
      assert (a + b)[1..] == a[1..] + b;
      FoldConcat(step, step(start, a[0]), a[1..], b);
    }
  }

  lemma FoldLast<S>(step: (S, byte) -> S, start: S, bytes: seq<byte>)
    requires |bytes| > 0
    ensures Fold(step, start, bytes) ==
            step(Fold(step, start, bytes[..|bytes| - 1]), bytes[|bytes| - 1])
  {
    var n := |bytes|;
    assert bytes == bytes[..n - 1] + [bytes[n - 1]];
    FoldConcat(step, start, bytes[..n - 1], [bytes[n - 1]]);
    assert [bytes[n - 1]][1..] == [];
  }

  /** No two states and no two bytes are confused by one step. */
  ghost predicate Injective<S(!new)>(step: (S, byte) -> S) {
    && (forall s, t, b :: step(s, b) == step(t, b) ==> s == t)
    && (forall s, b, c :: step(s, b) == step(s, c) ==> b == c)
  }

  lemma {:induction false} FoldKeepsApart<S(!new)>(step: (S, byte) -> S, s: S, t: S, bytes: seq<byte>)
    requires Injective(step)
    requires s != t
    ensures Fold(step, s, bytes) != Fold(step, t, bytes)
    decreases |bytes|
  {
    if |bytes| > 0 {
      FoldKeepsApart(step, step(s, bytes[0]), step(t, bytes[0]), bytes[1..]);
    }
  }

  /** Two strings of one length that differ in exactly one byte. */
  predicate DifferAt(a: seq<byte>, b: seq<byte>, k: nat) {
    && |a| == |b| && k < |a| && a[k] != b[k]
    && forall i :: 0 <= i < |a| && i != k ==> a[i] == b[i]
  }

  /** A single changed byte always changes the result. */
  lemma OneByteChangesFold<S(!new)>(step: (S, byte) -> S, start: S, a: seq<byte>, b: seq<byte>, k: nat)
    requires Injective(step)
    requires DifferAt(a, b, k)
    ensures Fold(step, start, a) != Fold(step, start, b)
  {
    assert a == a[..k] + ([a[k]] + a[k + 1..]);
    assert b == a[..k] + ([b[k]] + a[k + 1..]);
    var s := Fold(step, start, a[..k]);
    FoldConcat(step, start, a[..k], [a[k]] + a[k + 1..]);
    FoldConcat(step, start, a[..k], [b[k]] + a[k + 1..]);
    FoldKeepsApart(step, step(s, a[k]), step(s, b[k]), a[k + 1..]);
    assert ([a[k]] + a[k + 1..])[1..] == a[k + 1..];
    assert ([b[k]] + a[k + 1..])[1..] == a[k + 1..];
  }
}
