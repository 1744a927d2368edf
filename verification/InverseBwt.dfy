/**
  The inverse Burrows-Wheeler transform (dep/bzip2/decompress.c, lines 484-556): what the
  decoder computes from a last column is specified here on sequences, and shown to give the
  block back whatever non-strict order its rotations were sorted into.
*/
module InverseBwt {
  import opened Common
  import opened Rotation
  import opened Counting

  /** The byte before each sorted rotation (generateMTFValues reads block[ptr[i] - 1]). */
  function LastColumn(b: seq<Byte>, p: seq<int>): (l: seq<Byte>)
    requires |p| == |b| && forall i :: 0 <= i < |p| ==> 0 <= p[i] < |b|
    ensures |l| == |b|
  {
    seq(|b|, (i: int) requires 0 <= i < |b| => b[Unshift(|b|, p[i], 1)])
  }

  /** Following t from f, k steps. */
  function Walk(t: seq<int>, f: int, k: nat): (r: int)
    requires 0 <= f < |t| && forall i :: 0 <= i < |t| ==> 0 <= t[i] < |t|
    ensures 0 <= r < |t|
    decreases k
  {
    if k == 0 then f else Walk(t, t[f], k - 1)
  }

  lemma {:induction false} WalkNext(t: seq<int>, f: int, k: nat)
    requires 0 <= f < |t| && forall i :: 0 <= i < |t| ==> 0 <= t[i] < |t|
    ensures Walk(t, f, k + 1) == t[Walk(t, f, k)]
    decreases k
  {
    if k > 0 { WalkNext(t, t[f], k - 1); }
  }

  /** The k-th byte the decoder emits: the last-column byte k + 1 steps from origPtr along T^-1. */
  function Emitted(l: seq<Byte>, t: seq<int>, origPtr: int, k: nat): Byte
    requires |t| == |l| && 0 <= origPtr < |t| && forall i :: 0 <= i < |t| ==> 0 <= t[i] < |t|
  {
    l[Walk(t, origPtr, k + 1)]
  }

  /** Two lists of the same rotations in non-decreasing order agree up to equality of rotations. */
  lemma SortedAgree(b: seq<Byte>, p: seq<int>, q: seq<int>, f: nat)
    requires SortedRotations(b, p) && SortedRotations(b, q) && f < |b|
    ensures Cmp(b, p[f], q[f], |b|) == 0
  {
    SortedNotLess(b, p, q, f);
    SortedNotLess(b, q, p, f);
    CmpFlip(b, p[f], q[f], |b|);
  }

  lemma SortedNotLess(b: seq<Byte>, p: seq<int>, q: seq<int>, f: nat)
    requires SortedRotations(b, p) && SortedRotations(b, q) && f < |b|
    ensures Cmp(b, p[f], q[f], |b|) >= 0
  {
    if Cmp(b, p[f], q[f], |b|) < 0 {
      var low := set i | 0 <= i < f + 1 :: p[i];
      var below := set i | 0 <= i < f :: q[i];
      forall x | x in low ensures x in below {
        var i :| 0 <= i < f + 1 && p[i] == x;
        SortedPairs(b, p, i, f);
        var j := PermHits(q, x);
        if j >= f {
          SortedPairs(b, q, f, j);
          CmpTrans(b, q[f], q[j], p[f], |b|);
          CmpFlip(b, p[f], q[f], |b|);
        }
        assert q[j] == x;
      }
      PrefixCardinality(p, f + 1);
      PrefixCardinality(q, f);
      SubsetSize(low, below);
    }
  }

  /** Row f of the order read through T^-1 and moved back by one is again the sorted order. */
  function MovedBack(p: seq<int>, t: seq<int>): (q: seq<int>)
    requires |p| == |t|
    requires forall i :: 0 <= i < |p| ==> 0 <= p[i] < |p| && 0 <= t[i] < |t|
    ensures |q| == |p|
  {
    seq(|p|, (f: int) requires 0 <= f < |p| => Unshift(|p|, p[t[f]], 1))
  }

  lemma MovedBackPair(b: seq<Byte>, p: seq<int>, x: int, y: int)
    requires SortedRotations(b, p) && 0 <= x < |b| && 0 <= y < |b|
    requires LastColumn(b, p)[x] <= LastColumn(b, p)[y]
    requires LastColumn(b, p)[x] == LastColumn(b, p)[y] ==> x < y
    ensures Cmp(b, Unshift(|b|, p[x], 1), Unshift(|b|, p[y], 1), |b|) <= 0
  {
    if x < y { SortedPairs(b, p, x, y); }
    CmpBack(b, p[x], p[y]);
  }

  lemma StableStep(l: seq<int>, t: seq<int>, i: int)
    requires Stable(l, t) && 0 < i < |l|
    ensures 0 <= t[i - 1] < |l| && 0 <= t[i] < |l| && l[t[i - 1]] <= l[t[i]]
    ensures l[t[i - 1]] == l[t[i]] ==> t[i - 1] < t[i]
  {
    BucketedSorted(l, t, i - 1, i);
  }

  lemma MovedBackSorted(b: seq<Byte>, p: seq<int>, t: seq<int>)
    requires SortedRotations(b, p) && Stable(LastColumn(b, p), t)
    ensures SortedRotations(b, MovedBack(p, t))
  {
    hide Less;
    var q := MovedBack(p, t);
    forall i, j | 0 <= i < j < |q| ensures q[i] != q[j] {
      assert t[i] != t[j] && p[t[i]] != p[t[j]];
    }
    forall i | 0 < i < |q| ensures Cmp(b, q[i - 1], q[i], |b|) <= 0 {
      StableStep(LastColumn(b, p), t, i);
      MovedBackPair(b, p, t[i - 1], t[i]);
    }
  }

  /** One step of the walk moves one byte forward in the block. */
  lemma StepForward(b: seq<Byte>, p: seq<int>, t: seq<int>, f: nat)
    requires SortedRotations(b, p) && Stable(LastColumn(b, p), t) && f < |b|
    ensures LastColumn(b, p)[t[f]] == b[p[f]]
    ensures Cmp(b, Next(|b|, p[f]), p[t[f]], |b|) == 0
  {
    var q := MovedBack(p, t);
    MovedBackSorted(b, p, t);
    SortedAgree(b, p, q, f);
    CmpEqualNext(b, p[f], q[f]);
    assert Next(|b|, q[f]) == p[t[f]];
  }

  lemma {:induction false} WalkRow(b: seq<Byte>, p: seq<int>, t: seq<int>, origPtr: int, k: nat)
    requires SortedRotations(b, p) && Stable(LastColumn(b, p), t)
    requires 0 <= origPtr < |b| && p[origPtr] == 0 && k < |b|
    ensures Cmp(b, k, p[Walk(t, origPtr, k)], |b|) == 0
  {
    if k == 0 {
      CmpSelf(b, 0, |b|);
    } else {
      WalkRow(b, p, t, origPtr, k - 1);
      var f := Walk(t, origPtr, k - 1);
      WalkNext(t, origPtr, k - 1);
      CmpEqualNext(b, k - 1, p[f]);
      StepForward(b, p, t, f);
      CmpTrans(b, k, Next(|b|, p[f]), p[t[f]], |b|);
    }
  }

  /**
    The inverse transform is correct for every block, periodic ones included, and for every
    non-strict sort of its rotations: the n bytes emitted from origPtr are the block.
  */
  lemma InverseCorrect(b: seq<Byte>, p: seq<int>, t: seq<int>, origPtr: int, k: nat)
    requires SortedRotations(b, p) && Stable(LastColumn(b, p), t)
    requires 0 <= origPtr < |b| && p[origPtr] == 0 && k < |b|
    ensures Emitted(LastColumn(b, p), t, origPtr, k) == b[k]
  {
    WalkRow(b, p, t, origPtr, k);
    var f := Walk(t, origPtr, k);
    WalkNext(t, origPtr, k);
    StepForward(b, p, t, f);
    CmpEqualNext(b, k, p[f]);
  }
}
