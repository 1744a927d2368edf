/**
  dep/bzip2/compress.c, sendMTFValues (lines 279-317): the coding tables to begin with. Each one
  favours a band of symbols, and the bands are cut so that every table gets an even share of what
  the tables before it have left.
*/
module TableBands {
  import opened Common

  const LESSER_ICOST := 0
  const GREATER_ICOST := 15

  lemma {:induction false} SumConcat(a: seq<int>, b: seq<int>)
    ensures Sum(a + b) == Sum(a) + Sum(b)
  {
    if b == [] {
      assert a + b == a;
    } else {
      assert (a + b)[..|a + b| - 1] == a + b[..|b| - 1];
      SumConcat(a, b[..|b| - 1]);
    }
  }

  lemma {:induction false} SumLeast(s: seq<int>)
    requires forall i :: 0 <= i < |s| ==> s[i] >= 0
    ensures Sum(s) >= 0 && forall i :: 0 <= i < |s| ==> Sum(s) >= s[i]
  {
    if s != [] { SumLeast(s[..|s| - 1]); }
  }

  lemma SumSplit(f: seq<int>, i: int, j: int, k: int)
    requires 0 <= i <= j <= k <= |f|
    ensures Sum(f[i..k]) == Sum(f[i..j]) + Sum(f[j..k])
  {
    assert f[i..k] == f[i..j] + f[j..k];
    SumConcat(f[i..j], f[j..k]);
  }

  lemma SumOne(f: seq<int>, i: int, j: int)
    requires 0 <= i <= j < |f|
    ensures Sum(f[i..j + 1]) == Sum(f[i..j]) + f[j]
  {
    assert f[i..j + 1][..j - i] == f[i..j];
  }

  // ----- the bands -----

  /** The shortest stretch from gs on that has the share, or all there is. */
  ghost predicate Shortest(f: seq<int>, gs: int, e: int, share: int) {
    && 0 <= gs <= e <= |f| && (e < |f| ==> Sum(f[gs..e]) >= share)
    && forall x :: gs <= x < e ==> Sum(f[gs..x]) < share
  }

  /** An even share, for one of nPart tables, of the symbols from gs on. */
  function Share(f: seq<int>, gs: int, nPart: int): int
    requires 0 <= gs <= |f| && nPart > 0
  {
    Sum(f[gs..]) / nPart
  }

  /** From gs, with nPart of n tables to come, the band reaches to next: every other one stops one symbol earlier. */
  ghost predicate Cut(f: seq<int>, gs: int, nPart: int, n: int, next: int) {
    && 0 <= gs <= next <= |f| && nPart > 0
    && exists e :: Shortest(f, gs, e, Share(f, gs, nPart))
                   && next == if e - gs >= 2 && nPart != n && nPart != 1 && (n - nPart) % 2 == 1 then e - 1 else e
  }

  /** The bands of n tables: cuts[k] is where the k-th band begins. */
  ghost predicate Even(f: seq<int>, cuts: seq<int>, n: nat) {
    && |cuts| == n + 1 && cuts[0] == 0
    && forall k :: 0 <= k < n ==> Cut(f, cuts[k], n - k, n, cuts[k + 1])
  }

  /** The tables: the k-th band is that of the k-th table from the end. */
  ghost predicate Banded(lens: seq<seq<int>>, cuts: seq<int>, alphaSize: nat) {
    && |cuts| == |lens| + 1
    && forall t :: 0 <= t < |lens| ==> InBand(lens[t], cuts[|lens| - 1 - t], cuts[|lens| - t], alphaSize)
  }

  ghost predicate InBand(len: seq<int>, lo: int, hi: int, alphaSize: nat) {
    |len| == alphaSize && forall v :: 0 <= v < alphaSize ==> len[v] == if lo <= v < hi then 0 else 15
  }

  /** Where the symbols are what was counted, the bands end with the alphabet. */
  lemma LastCut(f: seq<int>, cuts: seq<int>, n: nat)
    requires Even(f, cuts, n) && n > 0 && f != [] && f[|f| - 1] > 0 && forall v :: 0 <= v < |f| ==> f[v] >= 0
    ensures cuts[n] == |f|
  {
    hide Sum;
    var gs := cuts[n - 1];
    assert Cut(f, gs, 1, n, cuts[n]);
    var e :| Shortest(f, gs, e, Share(f, gs, 1)) && cuts[n] == e;
    if e < |f| { PartLess(f, gs, e); }
  }

  /** Without the last symbol the sum is less. */
  lemma PartLess(f: seq<int>, gs: int, e: int)
    requires 0 <= gs <= e < |f| && f[|f| - 1] > 0 && forall v :: 0 <= v < |f| ==> f[v] >= 0
    ensures Sum(f[gs..e]) < Sum(f[gs..])
  {
    hide Sum;
    SumSplit(f, gs, e, |f|);
    assert f[gs..|f|] == f[gs..];
    SumLeast(f[e..|f|]);
    assert f[e..|f|][|f| - 1 - e] == f[|f| - 1];
  }

  /** Every symbol of the alphabet is favoured by exactly one table. */
  lemma {:induction false} OneBand(f: seq<int>, cuts: seq<int>, n: nat, k: nat, v: int) returns (j: nat)
    requires Even(f, cuts, n) && k <= n && 0 <= v < cuts[k]
    ensures j < k && cuts[j] <= v < cuts[j + 1]
    ensures forall i :: 0 <= i < k && cuts[i] <= v < cuts[i + 1] ==> i == j
  {
    hide Sum, Cut;
    CutsAscend(f, cuts, n, k - 1);
    if v >= cuts[k - 1] {
      j := k - 1;
    } else {
      j := OneBand(f, cuts, n, k - 1, v);
    }
  }

  lemma {:induction false} CutsAscend(f: seq<int>, cuts: seq<int>, n: nat, k: nat)
    requires Even(f, cuts, n) && k <= n
    ensures forall i :: 0 <= i <= k ==> 0 <= cuts[i] <= cuts[k]
  {
    hide Sum;
    if k > 0 {
      CutsAscend(f, cuts, n, k - 1);
      assert Cut(f, cuts[k - 1], n - (k - 1), n, cuts[k]);
    }
  }

  // ----- the loops -----

  /** The inner loop: symbols are taken until the share is reached. */
  method NextBand(mtfFreq: array<int>, gs: int, alphaSize: nat, tFreq: int) returns (ge: int, aFreq: int)
    requires 0 <= gs <= alphaSize <= mtfFreq.Length
    ensures Shortest(mtfFreq[..alphaSize], gs, ge + 1, tFreq) && aFreq == Sum(mtfFreq[..alphaSize][gs..ge + 1])
  {
    hide Sum;
    ghost var f := mtfFreq[..alphaSize];
    ge := gs - 1;
    aFreq := 0;
    SumNone(f, gs);
    while aFreq < tFreq && ge < alphaSize - 1
      invariant gs - 1 <= ge <= alphaSize - 1 && aFreq == Sum(f[gs..ge + 1])
      invariant forall x :: gs <= x <= ge ==> Sum(f[gs..x]) < tFreq
      decreases alphaSize - ge
    {
      ge := ge + 1;
      SumOne(f, gs, ge);
      aFreq := aFreq + mtfFreq[ge];
    }
  }

  lemma SumNone(f: seq<int>, i: int)
    requires 0 <= i <= |f|
    ensures Sum(f[i..i]) == 0
  {
  }

  /** One step of the outer loop: where the band of table nPart - 1 ends, and what it leaves. */
  method CutBand(mtfFreq: array<int>, gs: int, alphaSize: nat, nPart: int, nGroups: int, remF: int) returns (ge: int, left: int)
    requires 0 <= gs <= alphaSize <= mtfFreq.Length && 0 < nPart <= nGroups
    requires remF == Sum(mtfFreq[..alphaSize][gs..])
    ensures Cut(mtfFreq[..alphaSize], gs, nPart, nGroups, ge + 1) && left == Sum(mtfFreq[..alphaSize][ge + 1..])
  {
    hide Sum, Share, Shortest;
    ghost var f := mtfFreq[..alphaSize];
    ShareIs(f, gs, nPart);
    var tFreq := remF / nPart;
    var aFreq;
    ge, aFreq := NextBand(mtfFreq, gs, alphaSize, tFreq);
    ghost var e := ge + 1;
    ShortestBounds(f, gs, e, tFreq);
    if ge > gs && nPart != nGroups && nPart != 1 && (nGroups - nPart) % 2 == 1 {
      SumOne(f, gs, ge);
      aFreq := aFreq - mtfFreq[ge];
      ge := ge - 1;
    }
    left := remF - aFreq;
    SumSplit(f, gs, ge + 1, |f|);
    assert f[gs..|f|] == f[gs..] && f[ge + 1..|f|] == f[ge + 1..];
    assert Shortest(f, gs, e, Share(f, gs, nPart));
  }

  lemma ShareIs(f: seq<int>, gs: int, nPart: int)
    requires 0 <= gs <= |f| && nPart > 0
    ensures Share(f, gs, nPart) == Sum(f[gs..]) / nPart
  {
  }

  lemma ShortestBounds(f: seq<int>, gs: int, e: int, share: int)
    requires Shortest(f, gs, e, share)
    ensures 0 <= gs <= e <= |f|
  {
  }

  /** The costs of one table. */
  method FillRow(row: array<int>, gs: int, ge: int, alphaSize: nat)
    requires alphaSize <= row.Length == 258 && forall v :: 0 <= v < 258 ==> row[v] == GREATER_ICOST
    modifies row
    ensures InBand(row[..alphaSize], gs, ge + 1, alphaSize)
    ensures forall v :: 0 <= v < 258 ==> row[v] == LESSER_ICOST || row[v] == GREATER_ICOST
  {
    for v := 0 to alphaSize
      invariant forall u :: 0 <= u < v ==> row[u] == if gs <= u <= ge then LESSER_ICOST else GREATER_ICOST
      invariant forall u :: v <= u < 258 ==> row[u] == GREATER_ICOST
    {
      row[v] := if v >= gs && v <= ge then LESSER_ICOST else GREATER_ICOST;
    }
  }
}
