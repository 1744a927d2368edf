/**
  dep/bzip2/blocksort.c, mainGtU (lines 347-469): comparing two rotations by their bytes, and by
  the cached ranks of the quadrant array where these are known.
*/
module MainCompare {
  import opened Common
  import opened Rotation

  const N_OVERSHOOT := 34

  /** i + t on a circle of n positions, for any t. */
  function Adv(n: nat, i: nat, t: nat): (r: nat)
    requires i < n
    ensures r < n
    decreases t
  {
    if t == 0 then i else Adv(n, Next(n, i), t - 1)
  }

  lemma {:induction false} AdvNext(n: nat, i: nat, t: nat)
    requires i < n
    ensures Adv(n, i, t + 1) == Next(n, Adv(n, i, t))
    decreases t
  {
    if t > 0 { AdvNext(n, Next(n, i), t - 1); }
  }

  /** Comparing t + g characters: the first t decide, or else the g after them. */
  lemma {:induction false} CmpApart(b: seq<Byte>, i: nat, j: nat, t: nat, g: nat)
    requires i < |b| && j < |b|
    ensures Cmp(b, i, j, t + g) ==
            if Cmp(b, i, j, t) != 0 then Cmp(b, i, j, t) else Cmp(b, Adv(|b|, i, t), Adv(|b|, j, t), g)
    decreases t
  {
    if t > 0 && b[i] == b[j] { CmpApart(b, Next(|b|, i), Next(|b|, j), t - 1, g); }
  }

  /** Rotation i does not come after rotation j. */
  ghost predicate Leq(b: seq<Byte>, i: nat, j: nat)
    requires i < |b| && j < |b|
  {
    Cmp(b, i, j, |b|) <= 0
  }

  /** Rotations with t equal characters are ordered as what comes after them. */
  lemma LeqLater(b: seq<Byte>, i: nat, j: nat, t: nat)
    requires i < |b| && j < |b| && Cmp(b, i, j, t) == 0 && Leq(b, Adv(|b|, i, t), Adv(|b|, j, t))
    ensures Leq(b, i, j)
  {
    CmpApart(b, i, j, t, |b|);
    CmpDecided(b, i, j, |b|, t + |b|);
  }

  /** The first differing character decides. */
  lemma LeqDiffer(b: seq<Byte>, i: nat, j: nat, t: nat)
    requires i < |b| && j < |b| && Cmp(b, i, j, t) == 0 && b[Adv(|b|, i, t)] < b[Adv(|b|, j, t)]
    ensures Leq(b, i, j) && Cmp(b, i, j, t + 1) == -1
  {
    var x, y := Adv(|b|, i, t), Adv(|b|, j, t);
    CmpApart(b, i, j, t, 1);
    assert Cmp(b, x, y, 1) == -1;
    if t + 1 <= |b| {
      CmpDecided(b, i, j, t + 1, |b|);
    } else {
      CmpDecided(b, i, j, |b|, t + 1);
    }
  }

  lemma CmpMore(b: seq<Byte>, i: nat, j: nat, t: nat)
    requires i < |b| && j < |b| && Cmp(b, i, j, t) == 0 && b[Adv(|b|, i, t)] == b[Adv(|b|, j, t)]
    ensures Cmp(b, i, j, t + 1) == 0 && Cmp(b, j, i, t + 1) == 0
  {
    var x, y := Adv(|b|, i, t), Adv(|b|, j, t);
    CmpApart(b, i, j, t, 1);
    assert Cmp(b, x, y, 1) == Cmp(b, Next(|b|, x), Next(|b|, y), 0);
    CmpFlip(b, i, j, t + 1);
  }

  /** Enough equal characters, and the rotations are equal. */
  lemma LeqEqual(b: seq<Byte>, i: nat, j: nat, t: nat)
    requires i < |b| && j < |b| && Cmp(b, i, j, t) == 0 && t >= |b|
    ensures Leq(b, i, j) && Leq(b, j, i)
  {
    CmpDecided(b, i, j, |b|, t);
    CmpFlip(b, i, j, |b|);
    CmpLong(b, i, j, t);
  }

  // ----- the block with its overshoot -----

  /** The block, and its first bytes repeated behind it. */
  ghost predicate Extended(block: seq<int>, b: seq<Byte>) {
    && |b| > N_OVERSHOOT && |block| == |b| + N_OVERSHOOT
    && (forall i :: 0 <= i < |b| ==> block[i] == b[i])
    && (forall i :: 0 <= i < N_OVERSHOOT ==> block[|b| + i] == b[i])
  }

  /** Ranks: of positions with the same byte, a smaller rank does not come later; the overshoot repeats the first ranks. */
  ghost predicate Ranks(q: seq<int>, b: seq<Byte>) {
    && |b| > N_OVERSHOOT && |q| == |b| + N_OVERSHOOT
    && (forall i :: 0 <= i < N_OVERSHOOT ==> q[|b| + i] == q[i])
    && (forall x, y :: 0 <= x < |b| && 0 <= y < |b| && b[x] == b[y] && q[x] < q[y] ==> Leq(b, x, y))
  }

  function Wrap(n: nat, x: nat): (r: nat)
    requires N_OVERSHOOT < n && x <= n + N_OVERSHOOT
    ensures r < n
  {
    if x >= n then x - n else x
  }

  /** The characters of rotations x and y agree so far, and i1 and i2 are t further on. */
  ghost predicate Comparing(b: seq<Byte>, x: nat, y: nat, t: nat, i1: nat, i2: nat) {
    && |b| > N_OVERSHOOT && x < |b| && y < |b| && i1 <= |b| + N_OVERSHOOT && i2 <= |b| + N_OVERSHOOT
    && Cmp(b, x, y, t) == 0 && Cmp(b, y, x, t) == 0
    && Wrap(|b|, i1) == Adv(|b|, x, t) && Wrap(|b|, i2) == Adv(|b|, y, t)
  }

  lemma CompareStart(b: seq<Byte>, i1: nat, i2: nat)
    requires |b| > N_OVERSHOOT && i1 <= |b| + N_OVERSHOOT && i2 <= |b| + N_OVERSHOOT
    ensures Comparing(b, Wrap(|b|, i1), Wrap(|b|, i2), 0, i1, i2)
  {
  }

  /** What the bytes at i1 and i2 tell. */
  lemma CompareBytes(b: seq<Byte>, block: seq<int>, x: nat, y: nat, t: nat, i1: nat, i2: nat)
    requires Comparing(b, x, y, t, i1, i2) && Extended(block, b) && i1 < |block| && i2 < |block|
    ensures block[i1] < block[i2] ==> Leq(b, x, y)
    ensures block[i1] > block[i2] ==> Leq(b, y, x)
    ensures block[i1] == block[i2] ==> Comparing(b, x, y, t + 1, i1 + 1, i2 + 1)
  {
    hide Cmp, Adv;
    var u, v := Wrap(|b|, i1), Wrap(|b|, i2);
    assert block[i1] == b[u] && block[i2] == b[v];
    if b[u] < b[v] { LeqDiffer(b, x, y, t); }
    if b[v] < b[u] { LeqDiffer(b, y, x, t); }
    if b[u] == b[v] {
      CmpMore(b, x, y, t);
      AdvNext(|b|, x, t);
      AdvNext(|b|, y, t);
    }
  }

  /** What the ranks at i1 and i2 tell when the bytes are equal. */
  lemma CompareRanks(b: seq<Byte>, block: seq<int>, q: seq<int>, x: nat, y: nat, t: nat, i1: nat, i2: nat)
    requires Comparing(b, x, y, t, i1, i2) && Extended(block, b) && Ranks(q, b) && i1 < |block| && i2 < |block|
    requires block[i1] == block[i2]
    ensures q[i1] < q[i2] ==> Leq(b, x, y)
    ensures q[i1] > q[i2] ==> Leq(b, y, x)
  {
    hide Cmp, Adv, Leq;
    var u, v := Wrap(|b|, i1), Wrap(|b|, i2);
    assert block[i1] == b[u] && block[i2] == b[v] && q[i1] == q[u] && q[i2] == q[v];
    if q[u] < q[v] { LeqLater(b, x, y, t); }
    if q[v] < q[u] { LeqLater(b, y, x, t); }
  }

  /** Once round, positions are brought back into the block. */
  lemma CompareWrap(b: seq<Byte>, x: nat, y: nat, t: nat, i1: nat, i2: nat)
    requires Comparing(b, x, y, t, i1, i2)
    ensures Comparing(b, x, y, t, Wrap(|b|, i1), Wrap(|b|, i2))
  {
    hide Cmp, Adv;
  }

  lemma CompareEnd(b: seq<Byte>, x: nat, y: nat, t: nat, i1: nat, i2: nat)
    requires Comparing(b, x, y, t, i1, i2) && t >= |b|
    ensures Leq(b, x, y)
  {
    LeqEqual(b, x, y, t);
  }

  // ----- what a comparison costs -----

  /** The ranks of rotations x and y agree from the twelfth character up to the t-th. */
  ghost predicate RanksAgree(q: seq<int>, n: nat, x: nat, y: nat, t: nat)
    requires x < n && y < n && n <= |q|
  {
    forall u: nat :: 12 <= u < t ==> q[Adv(n, x, u)] == q[Adv(n, y, u)]
  }

  /** How often mainGtU goes round at most. */
  function Rounds(n: nat): nat {
    (n + 8) / 8 + 1
  }

  /**
    What a comparison takes off the budget: one for every eight characters that agree, byte and
    rank, behind the first twelve.
  */
  ghost predicate Spent(b: seq<Byte>, q: seq<int>, x: nat, y: nat, k: int)
    requires x < |b| && y < |b| <= |q|
  {
    && 0 <= k <= Rounds(|b|)
    && (k > 0 ==> Cmp(b, x, y, 12 + 8 * k) == 0 && RanksAgree(q, |b|, x, y, 12 + 8 * k))
    && (k < Rounds(|b|) ==> Cmp(b, x, y, 20 + 8 * k) != 0 || !RanksAgree(q, |b|, x, y, 20 + 8 * k))
  }

  /** The bytes at i1 and i2 differ, so the rotations differ within any more characters. */
  lemma DifferWithin(b: seq<Byte>, block: seq<int>, x: nat, y: nat, t: nat, i1: nat, i2: nat, h: nat)
    requires Comparing(b, x, y, t, i1, i2) && Extended(block, b) && i1 < |block| && i2 < |block|
    requires block[i1] != block[i2] && t < h
    ensures Cmp(b, x, y, h) != 0
  {
    hide Adv;
    var u, v := Wrap(|b|, i1), Wrap(|b|, i2);
    assert block[i1] == b[u] && block[i2] == b[v];
    CmpApart(b, x, y, t, 1);
    assert Cmp(b, u, v, 1) != 0;
    CmpDecided(b, x, y, t + 1, h);
  }

  /** The ranks at i1 and i2, as ranks of the rotations. */
  lemma RanksHere(b: seq<Byte>, q: seq<int>, x: nat, y: nat, t: nat, i1: nat, i2: nat)
    requires Comparing(b, x, y, t, i1, i2) && Ranks(q, b) && i1 < |q| && i2 < |q| && t >= 12
    ensures q[i1] != q[i2] ==> !RanksAgree(q, |b|, x, y, t + 1)
    ensures q[i1] == q[i2] && RanksAgree(q, |b|, x, y, t) ==> RanksAgree(q, |b|, x, y, t + 1)
  {
    hide Cmp, Adv, Leq;
    var u, v := Wrap(|b|, i1), Wrap(|b|, i2);
    assert q[i1] == q[u] && q[i2] == q[v] && u == Adv(|b|, x, t) && v == Adv(|b|, y, t);
  }

  lemma RanksDiffer(q: seq<int>, n: nat, x: nat, y: nat, t: nat, h: nat)
    requires x < n && y < n && n <= |q| && !RanksAgree(q, n, x, y, t) && t <= h
    ensures !RanksAgree(q, n, x, y, h)
  {
  }

  /** The first twelve steps of mainGtU: bytes only. */
  method CompareTwelve(i10: nat, i20: nat, block: array<int>, ghost b: seq<Byte>, ghost x: nat, ghost y: nat)
    returns (decided: bool, gt: bool, i1: nat, i2: nat)
    requires Extended(block[..], b) && Comparing(b, x, y, 0, i10, i20) && i10 + 20 <= block.Length && i20 + 20 <= block.Length
    ensures decided ==> (if gt then Leq(b, y, x) else Leq(b, x, y)) && Cmp(b, x, y, 20) != 0
    ensures !decided ==> i1 == i10 + 12 && i2 == i20 + 12 && Comparing(b, x, y, 12, i1, i2)
  {
    hide Comparing, Extended, Leq, Cmp;
    i1, i2 := i10, i20;
    for t := 0 to 12
      invariant i1 == i10 + t && i2 == i20 + t && Comparing(b, x, y, t, i1, i2)
    {
      ExtendedSize(block[..], b);
      InBlock(b, x, y, t, i1, i2);
      CompareBytes(b, block[..], x, y, t, i1, i2);
      var c1, c2 := block[i1], block[i2];
      if c1 != c2 {
        DifferWithin(b, block[..], x, y, t, i1, i2, 20);
        return true, c1 > c2, i1, i2;
      }
      i1, i2 := i1 + 1, i2 + 1;
    }
    return false, false, i1, i2;
  }

  lemma InBlock(b: seq<Byte>, x: nat, y: nat, t: nat, i1: nat, i2: nat)
    requires Comparing(b, x, y, t, i1, i2)
    ensures |b| > N_OVERSHOOT && x < |b| && y < |b| && i1 <= |b| + N_OVERSHOOT && i2 <= |b| + N_OVERSHOOT
  {
  }

  lemma SameSoFar(b: seq<Byte>, x: nat, y: nat, t: nat, i1: nat, i2: nat)
    requires Comparing(b, x, y, t, i1, i2)
    ensures x < |b| && y < |b| && Cmp(b, x, y, t) == 0
  {
  }

  lemma NoRanks(q: seq<int>, n: nat, x: nat, y: nat)
    requires x < n && y < n && n <= |q|
    ensures RanksAgree(q, n, x, y, 12)
  {
  }

  lemma ExtendedSize(block: seq<int>, b: seq<Byte>)
    requires Extended(block, b)
    ensures |b| > N_OVERSHOOT && |block| == |b| + N_OVERSHOOT
  {
  }

  lemma RanksSize(q: seq<int>, b: seq<Byte>)
    requires Ranks(q, b)
    ensures |q| == |b| + N_OVERSHOOT
  {
  }

  /** Eight steps of the main loop of mainGtU: bytes, then ranks. */
  method CompareEight(i10: nat, i20: nat, block: array<int>, quadrant: array<int>,
                      ghost b: seq<Byte>, ghost x: nat, ghost y: nat, ghost t0: nat)
    returns (decided: bool, gt: bool, i1: nat, i2: nat)
    requires Extended(block[..], b) && Ranks(quadrant[..], b) && Comparing(b, x, y, t0, i10, i20)
    requires i10 + 8 <= block.Length && i20 + 8 <= block.Length
    requires x < |b| && y < |b| <= quadrant.Length && t0 >= 12 && RanksAgree(quadrant[..], |b|, x, y, t0)
    ensures decided ==> if gt then Leq(b, y, x) else Leq(b, x, y)
    ensures decided ==> Cmp(b, x, y, t0 + 8) != 0 || !RanksAgree(quadrant[..], |b|, x, y, t0 + 8)
    ensures !decided ==> i1 == i10 + 8 && i2 == i20 + 8 && Comparing(b, x, y, t0 + 8, i1, i2)
    ensures !decided ==> RanksAgree(quadrant[..], |b|, x, y, t0 + 8)
  {
    hide Comparing, Extended, Leq, Ranks, Cmp, RanksAgree;
    i1, i2 := i10, i20;
    for t := 0 to 8
      invariant i1 == i10 + t && i2 == i20 + t && Comparing(b, x, y, t0 + t, i1, i2)
      invariant RanksAgree(quadrant[..], |b|, x, y, t0 + t)
    {
      ExtendedSize(block[..], b);
      RanksSize(quadrant[..], b);
      InBlock(b, x, y, t0 + t, i1, i2);
      CompareBytes(b, block[..], x, y, t0 + t, i1, i2);
      var c1, c2 := block[i1], block[i2];
      if c1 != c2 {
        DifferWithin(b, block[..], x, y, t0 + t, i1, i2, t0 + 8);
        return true, c1 > c2, i1, i2;
      }
      CompareRanks(b, block[..], quadrant[..], x, y, t0 + t, i1, i2);
      RanksHere(b, quadrant[..], x, y, t0 + t, i1, i2);
      var s1, s2 := quadrant[i1], quadrant[i2];
      if s1 != s2 {
        RanksDiffer(quadrant[..], |b|, x, y, t0 + t + 1, t0 + 8);
        return true, s1 > s2, i1, i2;
      }
      i1, i2 := i1 + 1, i2 + 1;
    }
    return false, false, i1, i2;
  }

  /**
    mainGtU, for positions at most 14 behind the block: it never reads past the overshoot, and its
    answer agrees with the order of the rotations: yes only if the first is not before the second,
    no only if it is not after. What it takes off the budget is exact.
  */
  method GtU(i10: nat, i20: nat, block: array<int>, quadrant: array<int>, nblock: nat, budget0: int, ghost b: seq<Byte>)
    returns (gt: bool, budget: int)
    requires Extended(block[..], b) && Ranks(quadrant[..], b) && nblock == |b|
    requires i10 <= nblock + 14 && i20 <= nblock + 14
    ensures if gt then Leq(b, Wrap(nblock, i20), Wrap(nblock, i10)) else Leq(b, Wrap(nblock, i10), Wrap(nblock, i20))
    ensures nblock <= quadrant.Length && Spent(b, quadrant[..], Wrap(nblock, i10), Wrap(nblock, i20), budget0 - budget)
  {
    hide Comparing, Extended, Leq, Ranks, Cmp, RanksAgree;
    RanksSize(quadrant[..], b);
    ExtendedSize(block[..], b);
    ghost var x, y := Wrap(nblock, i10), Wrap(nblock, i20);
    budget := budget0;
    CompareStart(b, i10, i20);
    var decided;
    var i1: nat, i2: nat;
    decided, gt, i1, i2 := CompareTwelve(i10, i20, block, b, x, y);
    if decided { return gt, budget; }
    ghost var t := 12;
    NoRanks(quadrant[..], nblock, x, y);
    var k: int := nblock + 8;
    while true
      invariant i1 <= nblock + 26 && i2 <= nblock + 26 && k >= 0 && t + k == nblock + 20
      invariant Comparing(b, x, y, t, i1, i2) && t == 12 + 8 * (budget0 - budget) && budget <= budget0
      invariant RanksAgree(quadrant[..], nblock, x, y, t)
      decreases k
    {
      InBlock(b, x, y, t, i1, i2);
      SameSoFar(b, x, y, t, i1, i2);
      decided, gt, i1, i2 := CompareEight(i1, i2, block, quadrant, b, x, y, t);
      if decided { return gt, budget; }
      t := t + 8;
      CompareWrap(b, x, y, t, i1, i2);
      if i1 >= nblock { i1 := i1 - nblock; }
      if i2 >= nblock { i2 := i2 - nblock; }
      k := k - 8;
      budget := budget - 1;
      if k < 0 { break; }
    }
    CompareEnd(b, x, y, t, i1, i2);
    SameSoFar(b, x, y, t, i1, i2);
    gt := false;
  }
}
