/**
  The cyclic rotations of a block and their order: the specification shared by both
  block sorts (blocksort.c) and by the inverse transform (decompress.c).
  Rotation i of b is b[i..] + b[..i].
*/
module Rotation {
  import opened Common

  function Next(n: nat, i: nat): (r: nat)
    requires i < n
    ensures r < n
  {
    if i + 1 == n then 0 else i + 1
  }

  /** i + h on a circle of n positions. */
  function Shift(n: nat, i: nat, h: nat): (r: nat)
    requires i < n && h <= n
    ensures r < n
  {
    if i + h >= n then i + h - n else i + h
  }

  /** i - h on a circle of n positions. */
  function Unshift(n: nat, i: nat, h: nat): (r: nat)
    requires i < n && h <= n
    ensures r < n && Shift(n, r, h) == i
  {
    if i < h then i - h + n else i - h
  }

  /** -1, 0 or 1: how the first h characters of rotations i and j of b compare. */
  function Cmp(b: seq<Byte>, i: nat, j: nat, h: nat): (c: int)
    requires i < |b| && j < |b|
    ensures -1 <= c <= 1
    decreases h
  {
    if h == 0 then 0
    else if b[i] < b[j] then -1
    else if b[i] > b[j] then 1
    else Cmp(b, Next(|b|, i), Next(|b|, j), h - 1)
  }

  lemma {:induction false} CmpSelf(b: seq<Byte>, i: nat, h: nat)
    requires i < |b|
    ensures Cmp(b, i, i, h) == 0
    decreases h
  {
    if h > 0 { CmpSelf(b, Next(|b|, i), h - 1); }
  }

  lemma {:induction false} CmpFlip(b: seq<Byte>, i: nat, j: nat, h: nat)
    requires i < |b| && j < |b|
    ensures Cmp(b, j, i, h) == -Cmp(b, i, j, h)
    decreases h
  {
    if h > 0 { CmpFlip(b, Next(|b|, i), Next(|b|, j), h - 1); }
  }

  lemma {:induction false} CmpTrans(b: seq<Byte>, i: nat, j: nat, k: nat, h: nat)
    requires i < |b| && j < |b| && k < |b|
    requires Cmp(b, i, j, h) <= 0 && Cmp(b, j, k, h) <= 0
    ensures Cmp(b, i, k, h) <= 0
    ensures Cmp(b, i, k, h) == 0 <==> Cmp(b, i, j, h) == 0 && Cmp(b, j, k, h) == 0
    decreases h
  {
    if h > 0 && b[i] == b[j] == b[k] {
      CmpTrans(b, Next(|b|, i), Next(|b|, j), Next(|b|, k), h - 1);
    }
  }

  /** Comparing h + g characters: the first h decide, or else the g after them. */
  lemma {:induction false} CmpSplit(b: seq<Byte>, i: nat, j: nat, h: nat, g: nat)
    requires i < |b| && j < |b| && h <= |b|
    ensures Cmp(b, i, j, h + g) ==
            if Cmp(b, i, j, h) != 0 then Cmp(b, i, j, h)
            else Cmp(b, Shift(|b|, i, h), Shift(|b|, j, h), g)
    decreases h
  {
    if h > 0 && b[i] == b[j] {
      CmpSplit(b, Next(|b|, i), Next(|b|, j), h - 1, g);
      assert Shift(|b|, Next(|b|, i), h - 1) == Shift(|b|, i, h);
      assert Shift(|b|, Next(|b|, j), h - 1) == Shift(|b|, j, h);
    }
  }

  /** Rotations that start one earlier compare by their first byte, then as the given ones. */
  lemma CmpBack(b: seq<Byte>, x: nat, y: nat)
    requires x < |b| && y < |b|
    requires b[Unshift(|b|, x, 1)] <= b[Unshift(|b|, y, 1)]
    requires b[Unshift(|b|, x, 1)] == b[Unshift(|b|, y, 1)] ==> Cmp(b, x, y, |b|) <= 0
    ensures Cmp(b, Unshift(|b|, x, 1), Unshift(|b|, y, 1), |b|) <= 0
  {
    var i, j := Unshift(|b|, x, 1), Unshift(|b|, y, 1);
    assert Next(|b|, i) == x && Next(|b|, j) == y;
    if b[i] == b[j] { CmpDecided(b, x, y, |b| - 1, |b|); }
  }

  /** Rotations that are equal stay equal when both are advanced by one. */
  lemma CmpEqualNext(b: seq<Byte>, i: nat, j: nat)
    requires i < |b| && j < |b| && Cmp(b, i, j, |b|) == 0
    ensures b[i] == b[j] && Cmp(b, Next(|b|, i), Next(|b|, j), |b|) == 0
  {
    var n := |b|;
    CmpSplit(b, Next(n, i), Next(n, j), n - 1, 1);
    assert Shift(n, Next(n, i), n - 1) == i && Shift(n, Next(n, j), n - 1) == j;
    assert Cmp(b, i, j, 1) == 0;
  }

  /** Equal rotations agree on every number of characters, also beyond one turn. */
  lemma {:induction false} CmpEqualAny(b: seq<Byte>, i: nat, j: nat, h: nat)
    requires i < |b| && j < |b| && Cmp(b, i, j, |b|) == 0
    ensures Cmp(b, i, j, h) == 0
    decreases h
  {
    if h > 0 {
      CmpEqualNext(b, i, j);
      CmpEqualAny(b, Next(|b|, i), Next(|b|, j), h - 1);
    }
  }

  /** The order of whole rotations is the order of any prefix long enough to decide. */
  lemma CmpLong(b: seq<Byte>, i: nat, j: nat, h: nat)
    requires i < |b| && j < |b| && h >= |b|
    ensures Cmp(b, i, j, h) == Cmp(b, i, j, |b|)
  {
    CmpSplit(b, i, j, |b|, h - |b|);
    if Cmp(b, i, j, |b|) == 0 { CmpEqualAny(b, i, j, h); }
  }

  /** A prefix that decides the order decides it for every longer prefix. */
  lemma CmpDecided(b: seq<Byte>, i: nat, j: nat, h: nat, h': nat)
    requires i < |b| && j < |b| && h <= h'
    ensures Cmp(b, i, j, h) != 0 ==> Cmp(b, i, j, h') == Cmp(b, i, j, h)
    ensures Cmp(b, i, j, h') <= 0 ==> Cmp(b, i, j, h) <= 0
    decreases h
  {
    if h > 0 && b[i] == b[j] { CmpDecided(b, Next(|b|, i), Next(|b|, j), h - 1, h' - 1); }
  }

  /** What both block sorts promise: `p` lists the rotations of `b` in non-decreasing order. */
  ghost predicate SortedRotations(b: seq<Byte>, p: seq<int>) {
    && |p| == |b|
    && IsPerm(p)
    && forall i :: 0 < i < |p| ==> Cmp(b, p[i - 1], p[i], |b|) <= 0
  }

  lemma {:induction false} SortedPairs(b: seq<Byte>, p: seq<int>, i: nat, j: nat)
    requires SortedRotations(b, p) && i <= j < |p|
    ensures Cmp(b, p[i], p[j], |b|) <= 0
    decreases j
  {
    if i == j {
      CmpSelf(b, p[i], |b|);
    } else {
      SortedPairs(b, p, i, j - 1);
      CmpTrans(b, p[i], p[j - 1], p[j], |b|);
    }
  }
}
