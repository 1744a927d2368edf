/**
  dep/bzip2/blocksort.c, mainSimpleSort (lines 480-555): a shell sort of rotations that share
  their first d characters.
*/
module MainSimpleSort {
  import opened Common
  import opened Rotation
  import opened MainCompare
  import opened MainBudget

  const DEPTH := 15

  /** The entries lo, ..., hi are rotations that agree in their first d characters. */
  ghost predicate Share(f: seq<int>, b: seq<Byte>, d: nat, lo: int, hi: int) {
    && 0 <= lo && hi < |f|
    && (forall x :: lo <= x <= hi ==> 0 <= f[x] < |b|)
    && (forall x, y :: lo <= x <= hi && lo <= y <= hi ==> Cmp(b, f[x], f[y], d) == 0)
  }

  /** The entries lo, ..., hi are in non-decreasing order. */
  ghost predicate Sorted(f: seq<int>, b: seq<Byte>, lo: int, hi: int) {
    && 0 <= lo && hi < |f|
    && (forall x :: lo <= x <= hi ==> 0 <= f[x] < |b|)
    && (forall x, y :: lo <= x < y <= hi ==> Leq(b, f[x], f[y]))
  }

  lemma ShareRearranged(f: seq<int>, g: seq<int>, b: seq<Byte>, d: nat, lo: int, hi: int)
    requires Share(f, b, d, lo, hi) && Rearranged(f, g, lo, hi + 1)
    ensures Share(g, b, d, lo, hi)
  {
    forall x | lo <= x <= hi ensures 0 <= g[x] < |b| {
      var k := RearrangedFrom(f, g, lo, hi + 1, x);
    }
    forall x, y | lo <= x <= hi && lo <= y <= hi ensures Cmp(b, g[x], g[y], d) == 0 {
      var k := RearrangedFrom(f, g, lo, hi + 1, x);
      var l := RearrangedFrom(f, g, lo, hi + 1, y);
    }
  }

  lemma {:induction false} AdvWrap(n: nat, i: nat, t: nat)
    requires N_OVERSHOOT < n && i < n && t <= N_OVERSHOOT
    ensures Adv(n, i, t) == Wrap(n, i + t)
    decreases t
  {
    if t > 0 { AdvWrap(n, Next(n, i), t - 1); }
  }

  /** Comparing entries of a stretch d characters in. */
  method After(p: nat, v: nat, d: nat, block: array<int>, quadrant: array<int>, nblock: nat, budget0: int,
               ghost b: seq<Byte>)
    returns (gt: bool, budget: int)
    requires Extended(block[..], b) && Ranks(quadrant[..], b) && nblock == |b|
    requires p < nblock && v < nblock && d <= DEPTH && Cmp(b, p, v, d) == 0 && Cmp(b, v, p, d) == 0
    ensures if gt then Leq(b, v, p) else Leq(b, p, v)
    ensures budget0 - Eights(b, p, v) <= budget <= budget0
  {
    hide Extended, Ranks, Leq, Cmp, Spent, Eights;
    ExtendedSize(block[..], b);
    gt, budget := GtU(p + d, v + d, block, quadrant, nblock, budget0, b);
    AdvWrap(nblock, p, d);
    AdvWrap(nblock, v, d);
    SpentPrice(b, quadrant[..], p, v, d, budget0 - budget);
    if gt { LeqLater(b, v, p, d); } else { LeqLater(b, p, v, d); }
  }

  // ----- insertion -----

  /** What step 1 leaves behind the hole at j: the entries passed, moved up by one, none before v. */
  ghost predicate Passed(f0: seq<int>, f: seq<int>, b: seq<Byte>, v: int, j: int, i: int) {
    && 0 <= j <= i < |f0| == |f| && 0 <= v < |b|
    && (forall x :: 0 <= x < j || i < x < |f| ==> f[x] == f0[x])
    && (forall x :: j < x <= i ==> f[x] == f0[x - 1])
    && (forall x :: j <= x < i ==> 0 <= f0[x] < |b| && Leq(b, v, f0[x]))
  }

  /** While v is on its way down from i: the hole is at j. */
  ghost predicate Inserting(f0: seq<int>, f: seq<int>, b: seq<Byte>, v: int, lo: int, j: int, i: int, h: int) {
    && 0 <= lo <= j <= i < |f0| == |f| && 0 <= v < |b|
    && Rearranged(f0, f[j := v], lo, i + 1)
    && (forall x :: lo <= x < j ==> f[x] == f0[x])
    && (h == 1 ==> Passed(f0, f, b, v, j, i))
  }

  lemma InsertStart(f: seq<int>, b: seq<Byte>, lo: int, i: int, h: int)
    requires 0 <= lo <= i < |f| && 0 <= f[i] < |b|
    ensures Inserting(f, f, b, f[i], lo, i, i, h)
  {
    assert f[i := f[i]] == f;
  }

  lemma InsertStep(f0: seq<int>, f: seq<int>, b: seq<Byte>, v: int, lo: int, j: int, i: int, h: int, k: int)
    requires Inserting(f0, f, b, v, lo, j, i, h) && h >= 1 && k == j - h >= lo
    requires 0 <= f[k] < |b| && Leq(b, v, f[k])
    ensures Inserting(f0, f[j := f[k]], b, v, lo, k, i, h)
  {
    hide Leq, SameItems, Passed;
    MoveHole(f, v, j, k);
    var g := f[j := f[k]];
    HoleRearranges(f, v, lo, i, j, k);
    RearrangedChain(f0, f[j := v], g[k := v], lo, i + 1);
    if h == 1 { PassedStep(f0, f, b, v, j, i); }
  }

  lemma HoleRearranges(f: seq<int>, v: int, lo: int, hi: int, j: int, k: int)
    requires 0 <= lo <= k < j <= hi < |f|
    ensures Rearranged(f[j := v], f[j := f[k]][k := v], lo, hi + 1)
  {
    hide Count;
    MoveHole(f, v, j, k);
  }

  lemma PassedStep(f0: seq<int>, f: seq<int>, b: seq<Byte>, v: int, j: int, i: int)
    requires Passed(f0, f, b, v, j, i) && 0 < j && 0 <= f[j - 1] < |b| && Leq(b, v, f[j - 1])
    ensures Passed(f0, f[j := f[j - 1]], b, v, j - 1, i)
  {
    hide Leq;
    assert f[j - 1] == f0[j - 1];
  }

  /** Once the entry before the hole is not after v, or the hole is at the front, the stretch up to i is in order. */
  lemma InsertEnd(f0: seq<int>, f: seq<int>, b: seq<Byte>, v: int, lo: int, j: int, i: int)
    requires Inserting(f0, f, b, v, lo, j, i, 1) && Sorted(f0, b, lo, i - 1)
    requires j > lo ==> 0 <= f[j - 1] < |b| && Leq(b, f[j - 1], v)
    ensures Sorted(f[j := v], b, lo, i)
  {
    hide Rearranged, Cmp;
    var g := f[j := v];
    forall x, y | lo <= x < y <= i ensures 0 <= g[x] < |b| && 0 <= g[y] < |b| && Leq(b, g[x], g[y]) {
      if x < j && y == j {
        assert f[j - 1] == f0[j - 1];
        if x < j - 1 { assert Leq(b, f0[x], f0[j - 1]); }
        BelowHole(f0, f, b, v, lo, j, x);
      } else if x < j < y {
        assert g[y] == f0[y - 1] && g[x] == f0[x];
      } else if x == j {
        assert g[y] == f0[y - 1] && Leq(b, v, f0[y - 1]);
      } else if x > j {
        assert g[x] == f0[x - 1] && g[y] == f0[y - 1];
      } else {
        assert g[x] == f0[x] && g[y] == f0[y];
      }
    }
    if i == lo { assert g[lo] == v; }
  }

  lemma BelowHole(f0: seq<int>, f: seq<int>, b: seq<Byte>, v: int, lo: int, j: int, x: int)
    requires 0 <= lo <= x < j <= |f| && j <= |f0| && 0 <= v < |b| && 0 <= f0[x] < |b| && 0 <= f0[j - 1] < |b| && f[j - 1] == f0[j - 1]
    requires Leq(b, f0[j - 1], v) && (x < j - 1 ==> Leq(b, f0[x], f0[j - 1]))
    ensures Leq(b, f0[x], v)
  {
    if x < j - 1 { CmpTrans(b, f0[x], f0[j - 1], v, |b|); }
  }

  /** One of the copies of the inner loop: entry i is inserted with step h. */
  method Insert(ptr: array<int>, block: array<int>, quadrant: array<int>, nblock: nat,
                lo: int, hi: int, d: nat, h: int, i: int, budget0: int, ghost b: seq<Byte>)
    returns (budget: int)
    requires ptr != block && ptr != quadrant && Extended(block[..], b) && Ranks(quadrant[..], b) && nblock == |b|
    requires h >= 1 && 0 <= lo && lo + h <= i <= hi < ptr.Length && d <= DEPTH && Share(ptr[..], b, d, lo, hi)
    requires h == 1 ==> Sorted(ptr[..], b, lo, i - 1)
    modifies ptr
    ensures Rearranged(old(ptr[..]), ptr[..], lo, i + 1)
    ensures h == 1 ==> Sorted(ptr[..], b, lo, i)
    ensures budget0 - RowSum(b, old(ptr[..])[lo..i], old(ptr[i])) <= budget <= budget0
  {
    hide Extended, Ranks, Leq, Cmp, Sorted, Share, Inserting, Eights, RowSum;
    ghost var f0 := ptr[..];
    budget := budget0;
    EntryShares(f0, b, d, lo, hi, i);
    var v, j := ptr[i], i;
    InsertStart(f0, b, lo, i, h);
    while true
      invariant Inserting(f0, ptr[..], b, v, lo, j, i, h) && lo + h <= j <= i && 0 <= v < nblock
      invariant budget0 - RowSum(b, f0[j..i], v) <= budget <= budget0
      decreases j
    {
      ghost var f := ptr[..];
      HoleShares(f0, f, b, d, v, lo, j, i, hi, h, j - h);
      RowNext(b, f0, v, j - h, j, i);
      var gt;
      gt, budget := After(ptr[j - h], v, d, block, quadrant, nblock, budget, b);
      if !gt {
        RowLonger(b, f0, v, lo, j - h, i);
        break;
      }
      InsertStep(f0, f, b, v, lo, j, i, h, j - h);
      ptr[j] := ptr[j - h];
      assert ptr[..] == f[j := f[j - h]];
      j := j - h;
      if j <= lo + h - 1 {
        RowLonger(b, f0, v, lo, j, i);
        break;
      }
    }
    ghost var f := ptr[..];
    InsertedRearranged(f0, f, b, v, lo, j, i, h);
    if h == 1 { InsertEnd(f0, f, b, v, lo, j, i); }
    ptr[j] := v;
    assert ptr[..] == f[j := v];
  }

  lemma EntryShares(f: seq<int>, b: seq<Byte>, d: nat, lo: int, hi: int, i: int)
    requires Share(f, b, d, lo, hi) && lo <= i <= hi
    ensures 0 <= i < |f| && 0 <= f[i] < |b|
  {
  }

  lemma HoleShares(f0: seq<int>, f: seq<int>, b: seq<Byte>, d: nat, v: int, lo: int, j: int, i: int, hi: int, h: int,
                   k: int)
    requires Share(f0, b, d, lo, hi) && Inserting(f0, f, b, v, lo, j, i, h) && i <= hi && lo <= k < j
    ensures 0 <= k < |f| && f[k] == f0[k] && 0 <= f[k] < |b| && Cmp(b, f[k], v, d) == 0 && Cmp(b, v, f[k], d) == 0
  {
    hide Cmp, Leq;
    var g := f[j := v];
    RearrangedWiden(f0, g, lo, i + 1, lo, hi + 1);
    ShareRearranged(f0, g, b, d, lo, hi);
    assert g[k] == f[k] && g[j] == v;
  }

  lemma InsertedRearranged(f0: seq<int>, f: seq<int>, b: seq<Byte>, v: int, lo: int, j: int, i: int, h: int)
    requires Inserting(f0, f, b, v, lo, j, i, h)
    ensures 0 <= j < |f| && Rearranged(f0, f[j := v], lo, i + 1)
  {
  }

  // ----- the shell sort -----

  /** The increments: each is three times the one before, and one more. */
  const INCS: seq<int> := [1, 4, 13, 40, 121, 364, 1093, 3280, 9841, 29524, 88573, 265720, 797161, 2391484]

  /** Where to start: the largest increment below the size. */
  method FirstIncrement(bigN: int) returns (hp: int)
    requires 2 <= bigN <= 900000
    ensures 0 <= hp < 13 && INCS[hp] < bigN
  {
    hp := 0;
    while INCS[hp] < bigN
      invariant 0 <= hp < 14 && (hp > 0 ==> INCS[hp - 1] < bigN)
      decreases 14 - hp
    {
      assert INCS[13] >= bigN;
      hp := hp + 1;
    }
    hp := hp - 1;
  }

  /** One pass, with one increment: three insertions at a time, until the budget is used up. */
  method PassOf(ptr: array<int>, block: array<int>, quadrant: array<int>, nblock: nat,
                lo: int, hi: int, d: nat, h: int, budget0: int, ghost b: seq<Byte>)
    returns (budget: int, aborted: bool)
    requires ptr != block && ptr != quadrant && Extended(block[..], b) && Ranks(quadrant[..], b) && nblock == |b|
    requires h >= 1 && 0 <= lo <= hi < ptr.Length && d <= DEPTH && Share(ptr[..], b, d, lo, hi)
    modifies ptr
    ensures Rearranged(old(ptr[..]), ptr[..], lo, hi + 1)
    ensures aborted ==> budget < 0
    ensures h == 1 && !aborted ==> Sorted(ptr[..], b, lo, hi)
    ensures budget0 - Pairs(b, old(ptr[..]), lo, hi) <= budget <= budget0
  {
    hide Extended, Ranks, Leq, Cmp, Sorted, Share, Rearranged, Pairs, RowSum;
    ghost var f0 := ptr[..];
    budget := budget0;
    SortedOne(f0, b, d, lo, hi);
    NotMoved(f0, lo, hi + 1);
    var i := lo + h;
    while i <= hi
      invariant lo + h <= i && (h == 1 ==> i <= hi + 1 && Sorted(ptr[..], b, lo, i - 1))
      invariant Rearranged(f0, ptr[..], lo, hi + 1) && budget0 - Pairs(b, ptr[..], lo, i - 1) <= budget <= budget0
      invariant i <= hi + 1 || budget == budget0
      decreases hi + 1 - i
    {
      ghost var old_i := i;
      var c := 0;
      while c < 3 && i <= hi
        invariant 0 <= c <= 3 && lo + h <= i && (h == 1 ==> i <= hi + 1 && Sorted(ptr[..], b, lo, i - 1))
        invariant Rearranged(f0, ptr[..], lo, hi + 1) && budget0 - Pairs(b, ptr[..], lo, i - 1) <= budget <= budget0
        invariant i == old_i + c && i <= hi + 1
        decreases 3 - c
      {
        ghost var f := ptr[..];
        ShareRearranged(f0, f, b, d, lo, hi);
        PairsNext(b, f, lo, i);
        budget := Insert(ptr, block, quadrant, nblock, lo, hi, d, h, i, budget, b);
        PairsRearranged(b, f, ptr[..], lo, i);
        RearrangedWiden(f, ptr[..], lo, i + 1, lo, hi + 1);
        RearrangedChain(f0, f, ptr[..], lo, hi + 1);
        i := i + 1;
        c := c + 1;
      }
      if c == 3 && budget < 0 {
        PairsSoFar(b, f0, ptr[..], lo, i, hi);
        return budget, true;
      }
    }
    if i <= hi + 1 { PairsSoFar(b, f0, ptr[..], lo, i, hi); }
    aborted := false;
  }

  lemma PairsSoFar(b: seq<Byte>, f0: seq<int>, f: seq<int>, lo: int, i: int, hi: int)
    requires Rearranged(f0, f, lo, hi + 1) && 0 <= lo <= i <= hi + 1 <= |f|
    ensures Pairs(b, f, lo, i - 1) <= Pairs(b, f0, lo, hi)
  {
    hide Pairs, Rearranged;
    PairsApart(b, f, lo, i, hi);
    PairsRearranged(b, f0, f, lo, hi);
  }

  lemma SortedOne(f: seq<int>, b: seq<Byte>, d: nat, lo: int, hi: int)
    requires Share(f, b, d, lo, hi) && lo <= hi
    ensures Sorted(f, b, lo, lo)
  {
  }

  lemma NotMoved(f: seq<int>, lo: int, hi: int)
    ensures Rearranged(f, f, lo, hi)
  {
  }

  function Times(k: nat, price: nat): nat {
    if k == 0 then 0 else Times(k - 1, price) + price
  }

  lemma TimesNext(k: nat, price: nat)
    ensures Times(k + 1, price) == Times(k, price) + price
  {
  }

  lemma {:induction false} TimesIs(k: nat, price: nat)
    ensures Times(k, price) == k * price
  {
    if k > 0 { TimesIs(k - 1, price); }
  }

  lemma {:induction false} TimesMonotone(k: nat, m: nat, price: nat)
    requires k <= m
    ensures Times(k, price) <= Times(m, price)
  {
    if k < m { TimesMonotone(k, m - 1, price); }
  }

  /**
    mainSimpleSort: the stretch is rearranged, and unless the budget ran out it is in order. The
    larger increments only rearrange; the last one, 1, sorts. Each of the at most thirteen asks for
    a pair of rotations at most once, so that is the most that is spent.
  */
  method SimpleSort(ptr: array<int>, block: array<int>, quadrant: array<int>, nblock: nat,
                    lo: int, hi: int, d: nat, budget0: int, ghost b: seq<Byte>)
    returns (budget: int)
    requires ptr != block && ptr != quadrant && Extended(block[..], b) && Ranks(quadrant[..], b) && nblock == |b|
    requires 0 <= lo <= hi + 1 && hi < ptr.Length <= 900000 && d <= DEPTH && Share(ptr[..], b, d, lo, hi)
    modifies ptr
    ensures Rearranged(old(ptr[..]), ptr[..], lo, hi + 1)
    ensures budget >= 0 ==> Sorted(ptr[..], b, lo, hi)
    ensures budget0 - 13 * Pairs(b, old(ptr[..]), lo, hi) <= budget <= budget0
  {
    ghost var f0 := ptr[..];
    var bigN := hi - lo + 1;
    budget := budget0;
    if bigN < 2 { return; }
    hide Extended, Ranks, Leq, Cmp, Sorted, Share, Rearranged, Pairs, Times;
    NotMoved(f0, lo, hi + 1);
    ghost var price := Pairs(b, f0, lo, hi);
    TimesIs(13, price);
    var hp := FirstIncrement(bigN);
    TimesMonotone(hp + 1, 13, price);
    while hp >= 0
      invariant -1 <= hp < 13 && Rearranged(f0, ptr[..], lo, hi + 1)
      invariant budget0 - Times(13, price) + Times(hp + 1, price) <= budget <= budget0
      invariant hp < 0 ==> Sorted(ptr[..], b, lo, hi)
      decreases hp
    {
      ghost var f := ptr[..];
      ShareRearranged(f0, f, b, d, lo, hi);
      PairsRearranged(b, f0, f, lo, hi);
      TimesNext(hp, price);
      var aborted;
      budget, aborted := PassOf(ptr, block, quadrant, nblock, lo, hi, d, INCS[hp], budget, b);
      RearrangedChain(f0, f, ptr[..], lo, hi + 1);
      if aborted { return; }
      hp := hp - 1;
    }
  }
}
