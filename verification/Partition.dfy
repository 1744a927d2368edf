/**
  dep/bzip2/blocksort.c: the three-way partition that fallbackQSort3 (lines 134-175) and
  mainQSort3 (lines 661-700) share. Entry x of `f` is compared by its key: key[f[x] + d], where
  fallbackQSort3 has the class table as keys and d = 0, and mainQSort3 has the block.
*/
module Partition {
  import opened Common

  ghost predicate Keyed(f: seq<int>, size: int, d: int, lo: int, hi: int) {
    0 <= lo && hi <= |f| && forall x :: lo <= x < hi ==> 0 <= f[x] + d < size
  }

  lemma KeyedRearranged(f: seq<int>, g: seq<int>, size: int, d: int, lo: int, hi: int)
    requires Keyed(f, size, d, lo, hi) && Rearranged(f, g, lo, hi)
    ensures Keyed(g, size, d, lo, hi)
  {
    forall x | lo <= x < hi ensures 0 <= g[x] + d < size {
      var k := RearrangedFrom(f, g, lo, hi, x);
    }
  }

  function Swapped(f: seq<int>, i: int, j: int): seq<int>
    requires 0 <= i < |f| && 0 <= j < |f|
  {
    f[i := f[j]][j := f[i]]
  }

  lemma SwapRearranges(f0: seq<int>, f: seq<int>, i: int, j: int, lo: int, hi: int)
    requires Rearranged(f0, f, lo, hi) && 0 <= lo <= i < hi <= |f| && lo <= j < hi
    ensures Rearranged(f0, Swapped(f, i, j), lo, hi)
  {
    SwapSameItems(f, i, j);
  }

  /**
    The picture while partitioning: keys equal to the median at both ends, smaller ones
    next to the left end, greater ones next to the right end, the rest not yet seen.
  */
  ghost predicate Zones(f: seq<int>, key: seq<int>, d: int, med: int,
                        lo: int, ltLo: int, unLo: int, unHi: int, gtHi: int, hi: int)
  {
    && 0 <= lo <= ltLo <= unLo <= unHi + 1 && unHi <= gtHi <= hi < |f|
    && Keyed(f, |key|, d, lo, hi + 1)
    && (forall x :: lo <= x < ltLo ==> key[f[x] + d] == med)
    && (forall x :: ltLo <= x < unLo ==> key[f[x] + d] < med)
    && (forall x :: unHi < x <= gtHi ==> key[f[x] + d] > med)
    && (forall x :: gtHi < x <= hi ==> key[f[x] + d] == med)
  }

  /** The outcome: [lo, n] below the median, [m, hi] above it, what is between equal to it. */
  ghost predicate Parted(f: seq<int>, key: seq<int>, d: int, med: int, lo: int, n: int, m: int, hi: int) {
    && 0 <= lo <= n + 1 <= m <= hi + 1 <= |f|
    && Keyed(f, |key|, d, lo, hi + 1)
    && (forall x :: lo <= x <= n ==> key[f[x] + d] < med)
    && (forall x :: n < x < m ==> key[f[x] + d] == med)
    && (forall x :: m <= x <= hi ==> key[f[x] + d] > med)
  }

  /** g is f with the disjoint stretches of length n at p1 and p2 exchanged. */
  ghost predicate Exchanged(f: seq<int>, g: seq<int>, p1: int, p2: int, n: int) {
    && |f| == |g| && 0 <= n && 0 <= p1 && p1 + n <= p2 && p2 + n <= |f|
    && (forall x :: p1 <= x < p1 + n ==> g[x] == f[x - p1 + p2])
    && (forall x :: p2 <= x < p2 + n ==> g[x] == f[x - p2 + p1])
    && (forall x :: 0 <= x < |f| && !(p1 <= x < p1 + n) && !(p2 <= x < p2 + n) ==> g[x] == f[x])
  }

  lemma ExchangedStep(f: seq<int>, g: seq<int>, p1: int, p2: int, k: int)
    requires Exchanged(f, g, p1, p2, k) && p1 + k < p2 && p2 + k < |f|
    ensures Exchanged(f, Swapped(g, p1 + k, p2 + k), p1, p2, k + 1)
  {
    assert g[p1 + k] == f[p1 + k] && g[p2 + k] == f[p2 + k];
  }

  /** fvswap and mvswap. */
  method VSwap(a: array<int>, p1: int, p2: int, n: int, ghost lo: int, ghost hi: int)
    requires 0 <= n && 0 <= lo <= p1 && p1 + n <= p2 && p2 + n <= hi <= a.Length
    modifies a
    ensures Exchanged(old(a[..]), a[..], p1, p2, n)
    ensures Rearranged(old(a[..]), a[..], lo, hi)
  {
    ghost var f0 := a[..];
    ghost var f := f0;
    var y1, y2, k := p1, p2, n;
    while k > 0
      invariant 0 <= k <= n && y1 == p1 + (n - k) && y2 == p2 + (n - k)
      invariant a[..] == f && Exchanged(f0, f, p1, p2, n - k) && Rearranged(f0, f, lo, hi)
    {
      ExchangedStep(f0, f, p1, p2, n - k);
      SwapRearranges(f0, f, y1, y2, lo, hi);
      f := Swapped(f, y1, y2);
      a[y1], a[y2] := a[y2], a[y1];
      y1, y2, k := y1 + 1, y2 + 1, k - 1;
    }
  }

  /** Between the two exchanges: the low half is in its final arrangement. */
  ghost predicate HalfMerged(f: seq<int>, key: seq<int>, d: int, med: int,
                             lo: int, ltEnd: int, unLo: int, gtHi: int, hi: int)
  {
    && 0 <= lo <= ltEnd <= unLo <= gtHi + 1 && gtHi <= hi < |f|
    && Keyed(f, |key|, d, lo, hi + 1)
    && (forall x :: lo <= x < ltEnd ==> key[f[x] + d] < med)
    && (forall x :: ltEnd <= x < unLo ==> key[f[x] + d] == med)
    && (forall x :: unLo <= x <= gtHi ==> key[f[x] + d] > med)
    && (forall x :: gtHi < x <= hi ==> key[f[x] + d] == med)
  }

  lemma MergeLow(f: seq<int>, g: seq<int>, key: seq<int>, d: int, med: int,
                 lo: int, ltLo: int, unLo: int, gtHi: int, hi: int, n: int, p: int, ltEnd: int)
    requires Zones(f, key, d, med, lo, ltLo, unLo, unLo - 1, gtHi, hi)
    requires n == Min(ltLo - lo, unLo - ltLo) && p == unLo - n && ltEnd == lo + (unLo - ltLo)
    requires Exchanged(f, g, lo, p, n) && Rearranged(f, g, lo, hi + 1)
    ensures HalfMerged(g, key, d, med, lo, ltEnd, unLo, gtHi, hi)
  {
    KeyedRearranged(f, g, |key|, d, lo, hi + 1);
    forall x | lo <= x < ltEnd ensures key[g[x] + d] < med {
      if x < lo + n { assert g[x] == f[x - lo + p]; } else { assert g[x] == f[x]; }
    }
    forall x | ltEnd <= x < unLo ensures key[g[x] + d] == med {
      if x >= p { assert g[x] == f[x - p + lo]; } else { assert g[x] == f[x]; }
    }
  }

  lemma MergeHigh(f: seq<int>, g: seq<int>, key: seq<int>, d: int, med: int,
                  lo: int, ltEnd: int, unLo: int, gtHi: int, hi: int, m: int, p: int, n': int, m': int)
    requires HalfMerged(f, key, d, med, lo, ltEnd, unLo, gtHi, hi)
    requires m == Min(hi - gtHi, gtHi - (unLo - 1)) && p == hi - m + 1
    requires n' == ltEnd - 1 && m' == hi - (gtHi - (unLo - 1)) + 1
    requires Exchanged(f, g, unLo, p, m) && Rearranged(f, g, lo, hi + 1)
    ensures Parted(g, key, d, med, lo, n', m', hi)
  {
    KeyedRearranged(f, g, |key|, d, lo, hi + 1);
    forall x | ltEnd <= x < m' ensures key[g[x] + d] == med {
      if unLo <= x < unLo + m { assert g[x] == f[x - unLo + p]; } else { assert g[x] == f[x]; }
    }
    forall x | m' <= x <= hi ensures key[g[x] + d] > med {
      if x >= p { assert g[x] == f[x - p + unLo]; } else { assert g[x] == f[x]; }
    }
    forall x | lo <= x < ltEnd ensures key[g[x] + d] < med {
      assert g[x] == f[x];
    }
  }

  lemma ZonesBounds(f: seq<int>, key: seq<int>, d: int, med: int,
                    lo: int, ltLo: int, unLo: int, unHi: int, gtHi: int, hi: int)
    requires Zones(f, key, d, med, lo, ltLo, unLo, unHi, gtHi, hi)
    ensures 0 <= lo <= ltLo <= unLo <= unHi + 1 && unHi <= gtHi <= hi < |f|
    ensures forall x :: lo <= x <= hi ==> 0 <= f[x] + d < |key|
  {
  }

  lemma RearrangedMore(f: seq<int>, g: seq<int>, h: seq<int>, lo': int, lo: int, hi: int)
    requires lo <= lo' && Rearranged(g, h, lo', hi)
    requires Rearranged(f, g, lo', hi) || Rearranged(f, g, lo, hi)
    ensures Rearranged(f, h, lo, hi)
    ensures forall x :: 0 <= x < lo' && x < |f| ==> h[x] == g[x]
  {
  }

  lemma TakeEqualLow(f: seq<int>, key: seq<int>, d: int, med: int,
                     lo: int, ltLo: int, unLo: int, unHi: int, gtHi: int, hi: int)
    requires Zones(f, key, d, med, lo, ltLo, unLo, unHi, gtHi, hi)
    requires unLo <= unHi && key[f[unLo] + d] == med
    ensures Zones(Swapped(f, unLo, ltLo), key, d, med, lo, ltLo + 1, unLo + 1, unHi, gtHi, hi)
  {
  }

  lemma TakeEqualHigh(f: seq<int>, key: seq<int>, d: int, med: int,
                      lo: int, ltLo: int, unLo: int, unHi: int, gtHi: int, hi: int)
    requires Zones(f, key, d, med, lo, ltLo, unLo, unHi, gtHi, hi)
    requires unLo <= unHi && key[f[unHi] + d] == med
    ensures Zones(Swapped(f, unHi, gtHi), key, d, med, lo, ltLo, unLo, unHi - 1, gtHi - 1, hi)
  {
  }

  lemma TakeLess(f: seq<int>, key: seq<int>, d: int, med: int,
                 lo: int, ltLo: int, unLo: int, unHi: int, gtHi: int, hi: int)
    requires Zones(f, key, d, med, lo, ltLo, unLo, unHi, gtHi, hi)
    requires unLo <= unHi && key[f[unLo] + d] < med
    ensures Zones(f, key, d, med, lo, ltLo, unLo + 1, unHi, gtHi, hi)
  {
  }

  lemma TakeGreater(f: seq<int>, key: seq<int>, d: int, med: int,
                    lo: int, ltLo: int, unLo: int, unHi: int, gtHi: int, hi: int)
    requires Zones(f, key, d, med, lo, ltLo, unLo, unHi, gtHi, hi)
    requires unLo <= unHi && key[f[unHi] + d] > med
    ensures Zones(f, key, d, med, lo, ltLo, unLo, unHi - 1, gtHi, hi)
  {
  }

  lemma TakeOutOfPlace(f: seq<int>, key: seq<int>, d: int, med: int,
                       lo: int, ltLo: int, unLo: int, unHi: int, gtHi: int, hi: int)
    requires Zones(f, key, d, med, lo, ltLo, unLo, unHi, gtHi, hi)
    requires unLo < unHi && key[f[unLo] + d] > med && key[f[unHi] + d] < med
    ensures Zones(Swapped(f, unLo, unHi), key, d, med, lo, ltLo, unLo + 1, unHi - 1, gtHi, hi)
  {
  }

  /** The left inner loop: skip smaller keys, collect equal ones at the left end. */
  method ScanUp(a: array<int>, key: array<int>, d: int, med: int,
                lo: int, ltLo0: int, unLo0: int, unHi: int, ghost gtHi: int, ghost hi: int)
    returns (ltLo: int, unLo: int)
    requires a != key && Zones(a[..], key[..], d, med, lo, ltLo0, unLo0, unHi, gtHi, hi)
    modifies a
    ensures Zones(a[..], key[..], d, med, lo, ltLo, unLo, unHi, gtHi, hi)
    ensures Rearranged(old(a[..]), a[..], lo, hi + 1)
    ensures unLo0 <= unLo && (unLo <= unHi ==> key[a[unLo] + d] > med)
  {
    ltLo, unLo := ltLo0, unLo0;
    ghost var f0, k := a[..], key[..];
    ghost var f := f0;
    while unLo <= unHi && key[a[unLo] + d] <= med
      invariant unLo0 <= unLo && a[..] == f && Zones(f, k, d, med, lo, ltLo, unLo, unHi, gtHi, hi)
      invariant Rearranged(f0, f, lo, hi + 1)
      decreases unHi + 1 - unLo
    {
      ZonesBounds(f, k, d, med, lo, ltLo, unLo, unHi, gtHi, hi);
      hide Zones, Rearranged;
      if key[a[unLo] + d] == med {
        TakeEqualLow(f, k, d, med, lo, ltLo, unLo, unHi, gtHi, hi);
        SwapRearranges(f0, f, unLo, ltLo, lo, hi + 1);
        f := Swapped(f, unLo, ltLo);
        a[unLo], a[ltLo] := a[ltLo], a[unLo];
        ltLo := ltLo + 1;
      } else {
        TakeLess(f, k, d, med, lo, ltLo, unLo, unHi, gtHi, hi);
      }
      unLo := unLo + 1;
    }
  }

  /** The right inner loop. */
  method ScanDown(a: array<int>, key: array<int>, d: int, med: int,
                  ghost lo: int, ghost ltLo: int, unLo: int, unHi0: int, gtHi0: int, ghost hi: int)
    returns (unHi: int, gtHi: int)
    requires a != key && Zones(a[..], key[..], d, med, lo, ltLo, unLo, unHi0, gtHi0, hi)
    modifies a
    ensures Zones(a[..], key[..], d, med, lo, ltLo, unLo, unHi, gtHi, hi)
    ensures Rearranged(old(a[..]), a[..], unHi + 1, hi + 1)
    ensures unHi <= unHi0 && (unLo <= unHi ==> key[a[unHi] + d] < med)
  {
    unHi, gtHi := unHi0, gtHi0;
    ghost var f0, k := a[..], key[..];
    ghost var f := f0;
    while unLo <= unHi && key[a[unHi] + d] >= med
      invariant unHi <= unHi0 && a[..] == f && Zones(f, k, d, med, lo, ltLo, unLo, unHi, gtHi, hi)
      invariant Rearranged(f0, f, unHi + 1, hi + 1)
      decreases unHi + 1 - unLo
    {
      ZonesBounds(f, k, d, med, lo, ltLo, unLo, unHi, gtHi, hi);
      RearrangedMore(f0, f, f, unHi + 1, unHi, hi + 1);
      hide Zones, Rearranged;
      if key[a[unHi] + d] == med {
        TakeEqualHigh(f, k, d, med, lo, ltLo, unLo, unHi, gtHi, hi);
        SwapRearranges(f0, f, unHi, gtHi, unHi, hi + 1);
        f := Swapped(f, unHi, gtHi);
        a[unHi], a[gtHi] := a[gtHi], a[unHi];
        gtHi := gtHi - 1;
      } else {
        TakeGreater(f, k, d, med, lo, ltLo, unLo, unHi, gtHi, hi);
      }
      unHi := unHi - 1;
    }
  }

  /** The main loop: scan from both ends and exchange what is out of place. */
  method Scan(a: array<int>, key: array<int>, d: int, med: int, lo: int, hi: int)
    returns (ltLo: int, unLo: int, gtHi: int)
    requires a != key && 0 <= lo <= hi < a.Length && Keyed(a[..], key.Length, d, lo, hi + 1)
    modifies a
    ensures Rearranged(old(a[..]), a[..], lo, hi + 1)
    ensures Zones(a[..], key[..], d, med, lo, ltLo, unLo, unLo - 1, gtHi, hi)
  {
    var unHi;
    unLo, ltLo, unHi, gtHi := lo, lo, hi, hi;
    ghost var f0, k := a[..], key[..];
    ghost var f := f0;
    while unLo <= unHi
      invariant lo <= unLo <= unHi + 1 && unHi <= hi
      invariant a[..] == f && Zones(f, k, d, med, lo, ltLo, unLo, unHi, gtHi, hi)
      invariant Rearranged(f0, f, lo, hi + 1)
      decreases unHi + 1 - unLo
    {
      hide Zones, Rearranged;
      ltLo, unLo := ScanUp(a, key, d, med, lo, ltLo, unLo, unHi, gtHi, hi);
      ghost var f1 := a[..];
      RearrangedChain(f0, f, f1, lo, hi + 1);
      unHi, gtHi := ScanDown(a, key, d, med, lo, ltLo, unLo, unHi, gtHi, hi);
      f := a[..];
      RearrangedMore(f0, f1, f, unHi + 1, lo, hi + 1);
      ZonesBounds(f, k, d, med, lo, ltLo, unLo, unHi, gtHi, hi);
      if unLo > unHi { break; }
      TakeOutOfPlace(f, k, d, med, lo, ltLo, unLo, unHi, gtHi, hi);
      SwapRearranges(f0, f, unLo, unHi, lo, hi + 1);
      f := Swapped(f, unLo, unHi);
      a[unLo], a[unHi] := a[unHi], a[unLo];
      unLo, unHi := unLo + 1, unHi - 1;
    }
  }

  /** The two exchanges after the scan, which bring the equal keys to the middle. */
  method Gather(a: array<int>, ghost key: array<int>, ghost d: int, ghost med: int,
                lo: int, ltLo: int, unLo: int, gtHi: int, hi: int)
    returns (n: int, m: int)
    requires a != key && Zones(a[..], key[..], d, med, lo, ltLo, unLo, unLo - 1, gtHi, hi)
    modifies a
    ensures Rearranged(old(a[..]), a[..], lo, hi + 1)
    ensures Parted(a[..], key[..], d, med, lo, n, m, hi)
    ensures ltLo <= gtHi ==> n >= lo || m <= hi
  {
    assert 0 <= lo <= ltLo <= unLo <= gtHi + 1 && gtHi <= hi < a.Length;
    hide Zones, HalfMerged, Parted, Exchanged, Rearranged;
    ghost var f1, k := a[..], key[..];
    ghost var ltEnd := lo + (unLo - ltLo);
    n := Min(ltLo - lo, unLo - ltLo);
    var p := unLo - n;
    VSwap(a, lo, p, n, lo, hi + 1);
    ghost var f2 := a[..];
    MergeLow(f1, f2, k, d, med, lo, ltLo, unLo, gtHi, hi, n, p, ltEnd);
    m := Min(hi - gtHi, gtHi - (unLo - 1));
    p := hi - m + 1;
    VSwap(a, unLo, p, m, lo, hi + 1);
    ghost var swapped := m;
    n := lo + unLo - ltLo - 1;
    m := hi - (gtHi - (unLo - 1)) + 1;
    MergeHigh(f2, a[..], k, d, med, lo, ltEnd, unLo, gtHi, hi, swapped, p, n, m);
    RearrangedChain(f1, f2, a[..], lo, hi + 1);
  }

  ghost predicate AllKeys(f: seq<int>, key: seq<int>, d: int, med: int, lo: int, hi: int) {
    0 <= lo && hi < |f| && forall x :: lo <= x <= hi ==> 0 <= f[x] + d < |key| && key[f[x] + d] == med
  }

  lemma PartedEqual(f: seq<int>, key: seq<int>, d: int, med: int, lo: int, n: int, m: int, hi: int)
    requires Parted(f, key, d, med, lo, n, m, hi) && lo <= hi
    ensures n == lo - 1 && m == hi + 1 <==> AllKeys(f, key, d, med, lo, hi)
  {
    if n >= lo { assert key[f[lo] + d] < med; }
    if m <= hi { assert key[f[hi] + d] > med; }
  }

  /**
    Partition [lo, hi] around `med`. When every key equals the median, `allEqual` is returned
    (`gtHi < ltLo` in the source).
  */
  method Split(a: array<int>, key: array<int>, d: int, med: int, lo: int, hi: int)
    returns (allEqual: bool, n: int, m: int)
    requires a != key && 0 <= lo <= hi < a.Length && Keyed(a[..], key.Length, d, lo, hi + 1)
    modifies a
    ensures Rearranged(old(a[..]), a[..], lo, hi + 1)
    ensures allEqual <==> n == lo - 1 && m == hi + 1
    ensures allEqual <==> AllKeys(a[..], key[..], d, med, lo, hi)
    ensures Parted(a[..], key[..], d, med, lo, n, m, hi)
  {
    ghost var f0 := a[..];
    var ltLo, unLo, gtHi := Scan(a, key, d, med, lo, hi);
    if gtHi < ltLo {
      PartedEqual(a[..], key[..], d, med, lo, lo - 1, hi + 1, hi);
      return true, lo - 1, hi + 1;
    }
    hide Zones, Parted, Rearranged, AllKeys;
    ghost var f1 := a[..];
    n, m := Gather(a, key, d, med, lo, ltLo, unLo, gtHi, hi);
    RearrangedChain(f0, f1, a[..], lo, hi + 1);
    PartedEqual(a[..], key[..], d, med, lo, n, m, hi);
    allEqual := false;
  }
}
