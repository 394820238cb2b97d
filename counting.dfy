/** Small facts about finite sets of integers and about the block layout of
    the generator's draws, shared by the inhibition and initialisation proofs. */
module Counting {

  /** The integers 0, 1, ..., n-1. */
  ghost function Interval(n: nat): (s: set<int>)
    ensures forall r :: r in s <==> 0 <= r < n
    ensures |s| == n
  {
    if n == 0 then {} else Interval(n - 1) + {n - 1}
  }

  lemma SubsetSize<T>(a: set<T>, b: set<T>)
    requires a <= b
    ensures |a| <= |b|
  {
    assert b == a + (b - a);
  }

  /** Index of the first draw that node `i` consumes when every node takes
      `stride` consecutive draws. */
  function Offset(i: nat, stride: nat): nat
  {
    i * stride
  }

  lemma OffsetNext(i: nat, stride: nat)
    ensures Offset(i + 1, stride) == Offset(i, stride) + stride
  {
  }

  lemma {:induction false} OffsetInside(i: nat, j: nat, n: nat, stride: nat)
    requires i < n && j <= stride
    ensures Offset(i, stride) + j <= Offset(n, stride)
    decreases n - i
  {
    if i + 1 < n {
      OffsetInside(i + 1, j, n, stride);
    }
    OffsetNext(i, stride);
  }

  /** Every block of the first n ends within the first n blocks. */
  lemma OffsetsInside(n: nat, stride: nat)
    ensures forall i :: 0 <= i < n ==> Offset(i, stride) + stride <= Offset(n, stride)
  {
    forall i | 0 <= i < n
      ensures Offset(i, stride) + stride <= Offset(n, stride)
    {
      OffsetInside(i, stride, n, stride);
    }
  }
}
