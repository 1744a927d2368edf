/**
  dep/bzip2/blocksort.c, mainSort (lines 751-1011): big buckets are finished one by one, from small
  buckets sorted on their own (Step 1), by the scans (Step 2), and each finished one gives ranks
  that make later comparisons stop early (Step 3).
*/
module MainSort {
  import opened Common
  import opened Rotation
  import opened Counting
  import opened MainCompare
  import opened MainBudget
  import opened MainRadix
  import opened MainSimpleSort
  import opened MainScan
  import opened PointerScan
  import MainQSort

  // ----- what is finished -----

  /** Rotations are in their small buckets; the flagged ones, and those of done big buckets, are in order. */
  ghost predicate Tidy(b: seq<Byte>, p: seq<int>, ftab: seq<int>, done: seq<bool>) {
    && Bucketed(Keys(b), p) && Starts(b, ftab) && |done| == 256
    && forall c, d :: 0 <= c < 256 && 0 <= d < 256 && (Flagged(ftab[256 * c + d]) || done[c]) ==> SmallSorted(b, p, c, d)
  }

  lemma TidyStart(b: seq<Byte>, p: seq<int>, ftab: seq<int>, done: seq<bool>)
    requires Bucketed(Keys(b), p) && |ftab| == RADIX + 1 && |b| <= 900000
    requires forall q :: 0 <= q <= RADIX ==> ftab[q] == Less(Keys(b), q)
    requires |done| == 256 && forall c :: 0 <= c < 256 ==> !done[c]
    ensures Tidy(b, p, ftab, done)
  {
    hide Less, SmallSorted;
  }

  lemma TidyFacts(b: seq<Byte>, p: seq<int>, ftab: seq<int>, done: seq<bool>)
    requires Tidy(b, p, ftab, done)
    ensures Bucketed(Keys(b), p) && Starts(b, ftab) && |ftab| == RADIX + 1 && |done| == 256
  {
  }

  lemma TidySorted(b: seq<Byte>, p: seq<int>, ftab: seq<int>, done: seq<bool>, c: Byte, d: Byte)
    requires Tidy(b, p, ftab, done)
    requires |ftab| == RADIX + 1 && |done| == 256
    ensures Flagged(ftab[256 * (c as int) + d]) || done[c] ==> SmallSorted(b, p, c, d)
  {
  }

  /** A small bucket in order gets the flag. */
  lemma TidyFlag(b: seq<Byte>, p: seq<int>, ftab: seq<int>, done: seq<bool>, c: Byte, d: Byte)
    requires Tidy(b, p, ftab, done) && SmallSorted(b, p, c, d) && |b| <= 900000
    ensures |ftab| == RADIX + 1
    ensures var q := 256 * (c as int) + d; Tidy(b, p, ftab[q := Clear(ftab[q]) + SETMASK], done)
  {
    hide Less, SmallSorted, Bucketed;
  }

  /** A big bucket whose small buckets are all in order is done. */
  lemma TidyDone(b: seq<Byte>, p: seq<int>, ftab: seq<int>, done: seq<bool>, c: Byte)
    requires Tidy(b, p, ftab, done) && forall d :: 0 <= d < 256 ==> SmallSorted(b, p, c, d)
    ensures |done| == 256 && Tidy(b, p, ftab, done[c := true])
  {
    hide Less, SmallSorted, Bucketed;
  }

  /** Once every big bucket is done, the rotations are in order. */
  lemma TidyEnd(b: seq<Byte>, p: seq<int>, ftab: seq<int>, done: seq<bool>)
    requires Tidy(b, p, ftab, done) && |b| >= 2 && forall c :: 0 <= c < 256 ==> done[c]
    ensures SortedRotations(b, p)
  {
    hide Less, Leq;
    BucketSizes(b, p);
    forall i | 0 < i < |p| ensures Leq(b, p[i - 1], p[i]) {
      InBig(b, p, ftab, done, i - 1, i);
    }
    forall i | 0 < i < |p| ensures Cmp(b, p[i - 1], p[i], |b|) <= 0 {
      LeqCmp(b, p[i - 1], p[i]);
    }
  }

  lemma LeqCmp(b: seq<Byte>, i: nat, j: nat)
    requires i < |b| && j < |b| && Leq(b, i, j)
    ensures Cmp(b, i, j, |b|) <= 0
  {
  }

  /** Places whose first big bucket is done are in order. */
  lemma InBig(b: seq<Byte>, p: seq<int>, ftab: seq<int>, done: seq<bool>, x: nat, y: nat)
    requires Tidy(b, p, ftab, done) && |b| >= 2 && x < y < |p|
    requires 0 <= p[x] < |b| && done[b[p[x]]]
    ensures 0 <= p[y] < |b| && Leq(b, p[x], p[y])
  {
    hide Less, Leq;
    var c, d := b[p[x]], b[Next(|b|, p[x])];
    BucketedSorted(Keys(b), p, x, y);
    KeySplit(b, p[x]);
    if Key(b, p[x]) < Key(b, p[y]) {
      KeyOrder(b, p[x], p[y]);
    } else {
      KeyParts(b, p[y], c, d);
      InBucketIff(b, p, c, d, x);
      InBucketIff(b, p, c, d, y);
      assert InBucket(b, p, c, d, x) && InBucket(b, p, c, d, y);
      assert SmallSorted(b, p, c, d);
    }
  }

  // ----- Step 1 -----

  /** Rearranging one small bucket. */
  lemma SmallRearranged(b: seq<Byte>, f: seq<int>, g: seq<int>, c: Byte, d: Byte)
    requires Bucketed(Keys(b), f)
    requires Rearranged(f, g, Less(Keys(b), 256 * (c as int) + d), Less(Keys(b), 256 * (c as int) + d + 1))
    ensures Bucketed(Keys(b), g)
  {
    hide Less, IsPerm, SameItems;
    var lo, hi := Less(Keys(b), 256 * (c as int) + d), Less(Keys(b), 256 * (c as int) + d + 1);
    SmallRange(b, c, d);
    PermRearranged(f, g);
    RearrangedSizes(f, g, lo, hi);
    forall x | 0 <= x < |g| ensures 0 <= g[x] < |b| && Less(Keys(b), Keys(b)[g[x]]) <= x < Less(Keys(b), Keys(b)[g[x]] + 1) {
      if lo <= x < hi {
        var k := RearrangedFrom(f, g, lo, hi, x);
        InBucketIff(b, f, c, d, k);
        assert InBucket(b, f, c, d, k);
        KeySplit(b, f[k]);
      } else {
        PermRange(f);
      }
    }
  }

  lemma RearrangedSizes(f: seq<int>, g: seq<int>, lo: int, hi: int)
    requires Rearranged(f, g, lo, hi)
    ensures |f| == |g|
  {
  }

  /** The other small buckets do not change. */
  lemma OtherSorted(b: seq<Byte>, f: seq<int>, g: seq<int>, c: Byte, d: Byte, c': Byte, d': Byte)
    requires Bucketed(Keys(b), f) && SmallSorted(b, f, c', d') && (c != c' || d != d')
    requires Rearranged(f, g, Less(Keys(b), 256 * (c as int) + d), Less(Keys(b), 256 * (c as int) + d + 1))
    ensures SmallSorted(b, g, c', d')
  {
    hide Less, SameItems, Leq, Bucketed;
    RearrangedSizes(f, g, Less(Keys(b), 256 * (c as int) + d), Less(Keys(b), 256 * (c as int) + d + 1));
    BucketSizes(b, f);
    SmallRange(b, c', d');
    forall x | Less(Keys(b), 256 * (c' as int) + d') <= x < Less(Keys(b), 256 * (c' as int) + d' + 1) ensures g[x] == f[x] {
      InBucketIff(b, f, c, d, x);
      InBucketIff(b, f, c', d', x);
      assert InBucket(b, f, c', d', x) && !InBucket(b, f, c, d, x);
    }
  }

  lemma TidySortedSmall(b: seq<Byte>, f: seq<int>, g: seq<int>, ftab: seq<int>, done: seq<bool>, c: Byte, d: Byte)
    requires Tidy(b, f, ftab, done) && SmallSorted(b, g, c, d)
    requires Rearranged(f, g, Less(Keys(b), 256 * (c as int) + d), Less(Keys(b), 256 * (c as int) + d + 1))
    ensures Tidy(b, g, ftab, done)
  {
    hide Less, SmallSorted, Bucketed, Rearranged;
    SmallRearranged(b, f, g, c, d);
    forall c', d' | 0 <= c' < 256 && 0 <= d' < 256 && (Flagged(ftab[256 * c' + d']) || done[c']) ensures SmallSorted(b, g, c', d') {
      if c != c' || d != d' { OtherSorted(b, f, g, c, d, c', d'); }
    }
  }

  lemma SmallShare(b: seq<Byte>, p: seq<int>, c: Byte, d: Byte)
    requires Bucketed(Keys(b), p)
    ensures Share(p, b, 2, Less(Keys(b), 256 * (c as int) + d), Less(Keys(b), 256 * (c as int) + d + 1) - 1)
  {
    hide Less, Cmp;
    var lo, hi := Less(Keys(b), 256 * (c as int) + d), Less(Keys(b), 256 * (c as int) + d + 1);
    SmallRange(b, c, d);
    forall x, y | lo <= x < hi && lo <= y < hi ensures Cmp(b, p[x], p[y], 2) == 0 {
      InBucketIff(b, p, c, d, x);
      InBucketIff(b, p, c, d, y);
      assert InBucket(b, p, c, d, x) && InBucket(b, p, c, d, y);
      KeySplit(b, p[x]);
      KeySplit(b, p[y]);
      KeyShare(b, p[x], p[y]);
    }
  }

  lemma ShortSorted(b: seq<Byte>, p: seq<int>, c: Byte, d: Byte)
    requires Bucketed(Keys(b), p) && Less(Keys(b), 256 * (c as int) + d + 1) - 1 <= Less(Keys(b), 256 * (c as int) + d)
    ensures SmallSorted(b, p, c, d)
  {
    hide Less;
    SmallRange(b, c, d);
  }

  /** The prices of the pairs among the rotations with keys from c up to d. */
  function KeyPairs(b: seq<Byte>, p: seq<int>, c: int, d: int): nat {
    Pairs(b, p, Less(Keys(b), c), Less(Keys(b), d) - 1)
  }

  lemma KeyPairsTidy(b: seq<Byte>, p: seq<int>, q: seq<int>, c: int, d: int)
    requires Bucketed(Keys(b), p) && Bucketed(Keys(b), q) && c <= d
    ensures KeyPairs(b, p, c, d) == KeyPairs(b, q, c, d)
  {
    PairsBucketed(b, Keys(b), p, q, c, d);
  }

  lemma KeyPairsApart(b: seq<Byte>, p: seq<int>, c: int, d: int, e: int)
    requires Bucketed(Keys(b), p) && c <= d <= e
    ensures KeyPairs(b, p, c, d) + KeyPairs(b, p, d, e) <= KeyPairs(b, p, c, e)
  {
    hide Pairs, Less, IsPerm;
    LessMonotone(Keys(b), c, d);
    LessMonotone(Keys(b), d, e);
    PairsApart(b, p, Less(Keys(b), c), Less(Keys(b), d), Less(Keys(b), e) - 1);
  }

  lemma KeyPairsNone(b: seq<Byte>, p: seq<int>, c: int)
    ensures KeyPairs(b, p, c, c) == 0
  {
    hide Pairs, Less;
    PairsEmpty(b, p, Less(Keys(b), c));
  }

  /** One more small bucket, from any arrangement that keeps the buckets. */
  lemma KeyPairsNext(b: seq<Byte>, p: seq<int>, q: seq<int>, c: int, d: int)
    requires Bucketed(Keys(b), p) && Bucketed(Keys(b), q) && c <= d
    ensures KeyPairs(b, p, c, d) + KeyPairs(b, q, d, d + 1) <= KeyPairs(b, p, c, d + 1)
  {
    hide KeyPairs, Bucketed;
    KeyPairsTidy(b, p, q, d, d + 1);
    KeyPairsApart(b, p, c, d, d + 1);
  }

  /** Where a stretch of keys ends, its price is at most that of a longer one. */
  lemma KeyPairsMore(b: seq<Byte>, p: seq<int>, c: int, d: int, e: int)
    requires Bucketed(Keys(b), p) && c <= d <= e
    ensures KeyPairs(b, p, c, d) <= KeyPairs(b, p, c, e)
  {
    hide KeyPairs, Bucketed;
    KeyPairsApart(b, p, c, d, e);
  }

  /** The quicksort of the small bucket [ss, j], unless its flag is set. */
  method SortSmall(ptr: array<int>, block: array<int>, quadrant: array<int>, bigDone: array<bool>, ftab: array<int>,
                   nblock: nat, ss: Byte, j: Byte, budget0: int, ghost b: seq<Byte>) returns (budget: int)
    requires ptr != block && ptr != quadrant && ptr != ftab && nblock == |b| <= 900000 && ptr.Length == nblock
    requires Extended(block[..], b) && Ranks(quadrant[..], b) && bigDone.Length == 256
    requires Tidy(b, ptr[..], ftab[..], bigDone[..]) && budget0 >= 0
    modifies ptr
    ensures budget >= 0 ==> Tidy(b, ptr[..], ftab[..], bigDone[..]) && SmallSorted(b, ptr[..], ss, j)
    ensures budget0 - 13 * KeyPairs(b, old(ptr[..]), 256 * (ss as int) + j, 256 * (ss as int) + j + 1) <= budget <= budget0
  {
    hide Extended, Ranks, Less, SmallSorted, Bucketed, Starts, Tidy, Sorted, Share, SameItems, Pairs;
    budget := budget0;
    ghost var f, fs, done := ptr[..], ftab[..], bigDone[..];
    TidyFacts(b, f, fs, done);
    var sb := 256 * (ss as int) + j;
    TidySorted(b, f, fs, done, ss, j);
    if !Flagged(ftab[sb]) {
      StartOf(b, fs, sb);
      StartOf(b, fs, sb + 1);
      var lo := Clear(ftab[sb]);
      var hi := Clear(ftab[sb + 1]) - 1;
      if hi > lo {
        assert KeyPairs(b, f, sb, sb + 1) == Pairs(b, f, lo, hi);
        SmallShare(b, f, ss, j);
        budget := MainQSort.QSort3(ptr, block, quadrant, nblock, lo, hi, 2, budget, b);
        if budget >= 0 {
          SmallSortedIs(b, ptr[..], ss, j, lo, hi);
          TidySortedSmall(b, f, ptr[..], fs, done, ss, j);
        }
      } else {
        ShortSorted(b, f, ss, j);
      }
    }
  }

  lemma SmallSortedIs(b: seq<Byte>, p: seq<int>, c: Byte, d: Byte, lo: int, hi: int)
    requires Sorted(p, b, lo, hi) && lo == Less(Keys(b), 256 * (c as int) + d) && hi == Less(Keys(b), 256 * (c as int) + d + 1) - 1
    ensures SmallSorted(b, p, c, d)
  {
  }

  predicate HasFlag(ftab: seq<int>, c: int, d: int) {
    0 <= 256 * c + d < |ftab| && Flagged(ftab[256 * c + d])
  }

  /** Step 1 for the big bucket ss: all its small buckets but [ss, ss]. */
  method SortSmalls(ptr: array<int>, block: array<int>, quadrant: array<int>, bigDone: array<bool>, ftab: array<int>,
                    nblock: nat, ss: Byte, budget0: int, ghost b: seq<Byte>) returns (budget: int)
    requires ptr != block && ptr != quadrant && ptr != ftab && ftab != block && ftab != quadrant
    requires nblock == |b| <= 900000 && ptr.Length == nblock
    requires Extended(block[..], b) && Ranks(quadrant[..], b) && bigDone.Length == 256
    requires Tidy(b, ptr[..], ftab[..], bigDone[..]) && budget0 >= 0
    modifies ptr, ftab
    ensures budget >= 0 ==> Tidy(b, ptr[..], ftab[..], bigDone[..])
    ensures ftab.Length == RADIX + 1
    ensures budget >= 0 ==> forall c :: 0 <= c < 256 && c != ss ==> SmallSorted(b, ptr[..], ss, c) && HasFlag(ftab[..], ss, c)
    ensures budget0 - 13 * KeyPairs(b, old(ptr[..]), 256 * (ss as int), 256 * (ss as int) + 256) <= budget <= budget0
  {
    hide Extended, Ranks, SmallSorted, Tidy, KeyPairs, Bucketed, Starts;
    budget := budget0;
    ghost var p0 := ptr[..];
    TidyFacts(b, ptr[..], ftab[..], bigDone[..]);
    KeyPairsNone(b, p0, 256 * (ss as int));
    for j: int := 0 to 256
      invariant ftab.Length == RADIX + 1 && budget >= 0 && Tidy(b, ptr[..], ftab[..], bigDone[..])
      invariant forall d :: 0 <= d < j && d != ss ==> HasFlag(ftab[..], ss, d)
      invariant budget0 - 13 * KeyPairs(b, p0, 256 * (ss as int), 256 * (ss as int) + j) <= budget <= budget0
    {
      TidyFacts(b, ptr[..], ftab[..], bigDone[..]);
      KeyPairsNext(b, p0, ptr[..], 256 * (ss as int), 256 * (ss as int) + j);
      if j != ss {
        budget := SortSmall(ptr, block, quadrant, bigDone, ftab, nblock, ss, j, budget, b);
        if budget < 0 {
          KeyPairsMore(b, p0, 256 * (ss as int), 256 * (ss as int) + j + 1, 256 * (ss as int) + 256);
          return;
        }
        SetFlag(ptr, bigDone, ftab, ss, j, b);
      }
    }
    forall c | 0 <= c < 256 && c != ss ensures SmallSorted(b, ptr[..], ss, c) && HasFlag(ftab[..], ss, c) {
      assert HasFlag(ftab[..], ss, c);
      TidySorted(b, ptr[..], ftab[..], bigDone[..], ss, c);
    }
  }

  /** ftab[(c << 8) + d] |= SETMASK. */
  method SetFlag(ghost ptr: array<int>, ghost bigDone: array<bool>, ftab: array<int>, c: Byte, d: Byte,
                 ghost b: seq<Byte>)
    requires ptr != ftab && |b| <= 900000
    requires Tidy(b, ptr[..], ftab[..], bigDone[..]) && SmallSorted(b, ptr[..], c, d)
    modifies ftab
    ensures Tidy(b, ptr[..], ftab[..], bigDone[..]) && ftab.Length == RADIX + 1
    ensures HasFlag(ftab[..], c, d)
    ensures forall c', d' :: HasFlag(old(ftab[..]), c', d') ==> HasFlag(ftab[..], c', d')
  {
    hide Tidy, SmallSorted;
    var q := 256 * (c as int) + d;
    ghost var f := ftab[..];
    TidyFacts(b, ptr[..], f, bigDone[..]);
    TidyFlag(b, ptr[..], f, bigDone[..], c, d);
    ftab[q] := Clear(ftab[q]) + SETMASK;
    assert ftab[..] == f[q := Clear(f[q]) + SETMASK];
  }

  // ----- Step 2 -----

  lemma TidyScanned(b: seq<Byte>, p: seq<int>, f: seq<int>, ftab: seq<int>, done: seq<bool>, ss: Byte)
    requires Tidy(b, p, ftab, done) && |done| == 256 && !done[ss] && Scanned(b, ss, done, p, f)
    requires forall c :: 0 <= c < 256 && c != ss ==> SmallSorted(b, p, ss, c)
    ensures Tidy(b, f, ftab, done)
    ensures forall c :: 0 <= c < 256 ==> SmallSorted(b, f, c, ss) && SmallSorted(b, f, ss, c)
  {
    hide Less, SmallSorted, Bucketed, Scanned;
    ScannedBucketed(b, ss, done, p, f);
    forall c, d | 0 <= c < 256 && 0 <= d < 256 && (Flagged(ftab[256 * c + d]) || done[c]) ensures SmallSorted(b, f, c, d) {
      ScannedSorted(b, ss, done, p, f, c, d);
    }
    forall c | 0 <= c < 256 ensures SmallSorted(b, f, c, ss) && SmallSorted(b, f, ss, c) {
      if done[c] { assert SmallSorted(b, p, c, ss); }
      ScannedSorted(b, ss, done, p, f, c, ss);
      ScannedSorted(b, ss, done, p, f, ss, c);
    }
  }

  /** Step 2 for the big bucket ss, which is then done. */
  method FinishBig(ptr: array<int>, block: array<int>, bigDone: array<bool>, ftab: array<int>, nblock: int, ss: Byte,
                   ghost b: seq<Byte>)
    requires ptr != block && ptr != ftab && block != ftab && 2 <= nblock == |b| <= 900000 && nblock <= block.Length && ptr.Length == nblock
    requires forall i :: 0 <= i < nblock ==> block[i] == b[i]
    requires Tidy(b, ptr[..], ftab[..], bigDone[..]) && bigDone.Length == 256 && !bigDone[ss]
    requires forall c :: 0 <= c < 256 && c != ss ==> SmallSorted(b, ptr[..], ss, c)
    modifies ptr, ftab, bigDone
    ensures Tidy(b, ptr[..], ftab[..], bigDone[..]) && bigDone[..] == old(bigDone[..])[ss := true]
  {
    hide Tidy, SmallSorted, Scanned, Starts, Bucketed;
    ghost var p, done := ptr[..], bigDone[..];
    TidyFacts(b, p, ftab[..], done);
    Synthesise(ptr, block, bigDone, ftab, nblock, ss, b);
    TidyScanned(b, p, ptr[..], ftab[..], done, ss);
    ghost var f := ptr[..];
    for j: int := 0 to 256
      invariant ptr[..] == f && bigDone[..] == done && Tidy(b, f, ftab[..], done)
    {
      SetFlag(ptr, bigDone, ftab, j, ss, b);
    }
    TidyDone(b, f, ftab[..], done, ss);
    bigDone[ss] := true;
    assert bigDone[..] == done[ss := true];
  }

  // ----- Step 3 -----

  /** x >> s. */
  function Shr(x: nat, s: nat): nat {
    if s == 0 then x else Shr(x, s - 1) / 2
  }

  lemma {:induction false} ShrMonotone(x: nat, y: nat, s: nat)
    requires x <= y
    ensures Shr(x, s) <= Shr(y, s)
  {
    if s > 0 { ShrMonotone(x, y, s - 1); }
  }

  /** Position a has the given rank, in the overshoot too. */
  ghost predicate HasRank(q: seq<int>, n: nat, a: nat, rank: int)
    requires N_OVERSHOOT < n && |q| == n + N_OVERSHOOT && a < n
  {
    q[a] == rank && (a < N_OVERSHOOT ==> q[n + a] == rank)
  }

  /** The rank of position a is stored, in the overshoot too. */
  function WithRank(q: seq<int>, n: nat, a: nat, rank: int): seq<int>
    requires N_OVERSHOOT < n && |q| == n + N_OVERSHOOT && a < n
  {
    if a < N_OVERSHOOT then q[a := rank][n + a := rank] else q[a := rank]
  }

  /** The positions listed from place i of the big bucket on have their ranks; positions with other first bytes are as before. */
  ghost predicate Ranked(b: seq<Byte>, p: seq<int>, q0: seq<int>, q: seq<int>, ss: int, start: int, size: int,
                         shifts: nat, i: int) {
    && |b| > N_OVERSHOOT && |q0| == |q| == |b| + N_OVERSHOOT && 0 <= start && 0 <= i <= size && start + size <= |p| == |b|
    && (forall j :: i <= j < size ==> 0 <= p[start + j] < |b| && HasRank(q, |b|, p[start + j], Shr(j, shifts)))
    && (forall x :: 0 <= x < |b| && b[x] != ss ==> q[x] == q0[x])
    && (forall x :: 0 <= x < N_OVERSHOOT && b[x] != ss ==> q[|b| + x] == q0[|b| + x])
  }

  lemma RankOne(b: seq<Byte>, p: seq<int>, q0: seq<int>, q: seq<int>, q': seq<int>, ss: int, start: int, size: int,
                shifts: nat, i: int,
                a: int)
    requires Ranked(b, p, q0, q, ss, start, size, shifts, i) && 0 < i && IsPerm(p) && a == p[start + i - 1]
    requires 0 <= a < |b| && b[a] == ss
    requires q' == WithRank(q, |b|, a, Shr(i - 1, shifts))
    ensures Ranked(b, p, q0, q', ss, start, size, shifts, i - 1)
  {
    hide Shr;
    forall j | i - 1 <= j < size
      ensures 0 <= p[start + j] < |b| && HasRank(q', |b|, p[start + j], Shr(j, shifts))
    {
      if j >= i {
        assert HasRank(q, |b|, p[start + j], Shr(j, shifts));
        assert p[start + i - 1] != p[start + j];
      }
    }
  }

  /** The positions of a big bucket are those with its byte. */
  lemma BigPlace(b: seq<Byte>, p: seq<int>, ss: Byte, x: nat)
    requires Bucketed(Keys(b), p) && x < |p|
    ensures 0 <= p[x] < |b|
    ensures b[p[x]] == ss <==> Less(Keys(b), 256 * (ss as int)) <= x < Less(Keys(b), 256 * (ss as int) + 256)
  {
    hide Less;
    KeySplit(b, p[x]);
    BucketOf(Keys(b), p, x, 256 * (ss as int));
    BucketOf(Keys(b), p, x, 256 * (ss as int) + 256);
  }

  /** The rank of a position of the big bucket is its scaled place there. */
  lemma RankOf(b: seq<Byte>, p: seq<int>, q0: seq<int>, q: seq<int>, ss: Byte, start: int, size: int, shifts: nat,
               x: nat) returns (X: nat)
    requires Bucketed(Keys(b), p) && start == Less(Keys(b), 256 * (ss as int)) && start + size == Less(Keys(b), 256 * (ss as int) + 256)
    requires Ranked(b, p, q0, q, ss, start, size, shifts, 0) && x < |b| && b[x] == ss
    ensures X < |p| && p[X] == x && start <= X && HasRank(q, |b|, x, Shr(X - start, shifts))
  {
    hide Less, Shr, HasRank, Bucketed, IsPerm;
    BucketSizes(b, p);
    X := PermHits(p, x);
    BigPlace(b, p, ss, X);
    assert p[start + (X - start)] == x;
  }

  /** The new ranks agree with the order of the rotations. */
  lemma RanksKept(b: seq<Byte>, p: seq<int>, ftab: seq<int>, done: seq<bool>, q0: seq<int>, q: seq<int>, ss: Byte,
                  start: int, size: int,
                  shifts: nat)
    requires Tidy(b, p, ftab, done) && |done| == 256 && done[ss] && Ranks(q0, b)
    requires start == Less(Keys(b), 256 * (ss as int)) && start + size == Less(Keys(b), 256 * (ss as int) + 256)
    requires Ranked(b, p, q0, q, ss, start, size, shifts, 0)
    ensures Ranks(q, b)
  {
    hide Less, Tidy, Leq, Shr, Bucketed;
    TidyFacts(b, p, ftab, done);
    forall x, y | 0 <= x < |b| && 0 <= y < |b| && b[x] == b[y] && q[x] < q[y] ensures Leq(b, x, y) {
      if b[x] == ss {
        var X := RankOf(b, p, q0, q, ss, start, size, shifts, x);
        var Y := RankOf(b, p, q0, q, ss, start, size, shifts, y);
        if Y <= X { ShrMonotone(Y - start, X - start, shifts); }
        InBig(b, p, ftab, done, X, Y);
      }
    }
    forall x | 0 <= x < N_OVERSHOOT ensures q[|b| + x] == q[x] {
      if b[x] == ss { var X := RankOf(b, p, q0, q, ss, start, size, shifts, x); }
    }
  }

  method SetRank(quadrant: array<int>, nblock: nat, a: nat, rank: int)
    requires N_OVERSHOOT < nblock && quadrant.Length == nblock + N_OVERSHOOT && a < nblock
    modifies quadrant
    ensures quadrant[..] == WithRank(old(quadrant[..]), nblock, a, rank)
  {
    quadrant[a] := rank;
    if a < N_OVERSHOOT { quadrant[a + nblock] := rank; }
  }

  /** Step 3: ranks for the positions of the finished big bucket, scaled to sixteen bits. AssertH 1002 never fires. */
  method UpdateRanks(ptr: array<int>, quadrant: array<int>, ghost bigDone: array<bool>, ftab: array<int>, nblock: nat,
                     ss: Byte, ghost b: seq<Byte>)
    returns (shifts: nat)
    requires ptr != quadrant && ftab != quadrant && N_OVERSHOOT < nblock == |b| <= 900000 && ptr.Length == nblock
    requires Tidy(b, ptr[..], ftab[..], bigDone[..]) && bigDone.Length == 256 && bigDone[ss] && Ranks(quadrant[..], b)
    modifies quadrant
    ensures Ranks(quadrant[..], b)
    ensures var start, size := Less(Keys(b), 256 * (ss as int)), Less(Keys(b), 256 * (ss as int) + 256) - Less(Keys(b), 256 * (ss as int));
            && Ranked(b, ptr[..], old(quadrant[..]), quadrant[..], ss, start, size, shifts, 0)
            && Shr(size, shifts) <= 65534 && (shifts > 0 ==> Shr(size, shifts - 1) > 65534)
  {
    hide Tidy, Ranks, Starts, Bucketed, Less, Ranked, WithRank, IsPerm;
    ghost var p, q0 := ptr[..], quadrant[..];
    TidyFacts(b, p, ftab[..], bigDone[..]);
    BucketSizes(b, p);
    RanksSize(q0, b);
    StartOf(b, ftab[..], 256 * (ss as int));
    StartOf(b, ftab[..], 256 * (ss as int) + 256);
    LessMonotone(Keys(b), 256 * (ss as int), 256 * (ss as int) + 256);
    var bbStart := Clear(ftab[256 * (ss as int)]);
    var bbSize: nat := Clear(ftab[256 * (ss as int) + 256]) - bbStart;
    shifts := 0;
    while Shr(bbSize, shifts) > 65534
      invariant shifts > 0 ==> Shr(bbSize, shifts - 1) > 65534
      decreases Shr(bbSize, shifts)
    {
      shifts := shifts + 1;
    }
    var j := bbSize - 1;
    RankedStart(b, p, q0, ss, bbStart, bbSize, shifts);
    while j >= 0
      invariant -1 <= j < bbSize && ptr[..] == p && Ranked(b, p, q0, quadrant[..], ss, bbStart, bbSize, shifts, j + 1)
    {
      BigPlace(b, p, ss, bbStart + j);
      ShrMonotone(j, bbSize, shifts);
      ghost var q := quadrant[..];
      var a2update := ptr[bbStart + j];
      var qVal := Shr(j, shifts) % 65536;
      assert Shr(j, shifts) <= 65535;
      SetRank(quadrant, nblock, a2update, qVal);
      RankOne(b, p, q0, q, quadrant[..], ss, bbStart, bbSize, shifts, j + 1, a2update);
      j := j - 1;
    }
    RanksKept(b, p, ftab[..], bigDone[..], q0, quadrant[..], ss, bbStart, bbSize, shifts);
  }

  lemma RankedStart(b: seq<Byte>, p: seq<int>, q: seq<int>, ss: int, start: int, size: int, shifts: nat)
    requires |b| > N_OVERSHOOT && |q| == |b| + N_OVERSHOOT && 0 <= start && 0 <= size && start + size <= |p| == |b|
    ensures Ranked(b, p, q, q, ss, start, size, shifts, size)
  {
  }

  // ----- the whole sort -----

  /** The buckets that are done are the first i of the running order. */
  ghost predicate DoneSoFar(order: seq<int>, done: seq<bool>, i: int) {
    && |order| == |done| == 256 && IsPerm(order) && 0 <= i <= 256
    && (forall k :: 0 <= k < i ==> done[order[k]])
    && (forall k :: i <= k < 256 ==> !done[order[k]])
  }

  lemma DoneNext(order: seq<int>, done: seq<bool>, i: int)
    requires DoneSoFar(order, done, i) && i < 256
    ensures |order| == |done| == 256 && 0 <= order[i] < 256 && !done[order[i]]
    ensures DoneSoFar(order, done[order[i] := true], i + 1)
  {
  }

  lemma DoneAll(order: seq<int>, done: seq<bool>)
    requires DoneSoFar(order, done, 256)
    ensures |done| == 256 && forall c :: 0 <= c < 256 ==> done[c]
  {
    forall c | 0 <= c < 256 ensures done[c] {
      var k := PermHits(order, c);
    }
  }

  /** The prices of the big buckets below c that are done. */
  function DonePairs(b: seq<Byte>, p: seq<int>, done: seq<bool>, c: nat): nat
    requires c <= |done|
  {
    if c == 0 then 0
    else DonePairs(b, p, done, c - 1) + if done[c - 1] then KeyPairs(b, p, 256 * (c - 1), 256 * c) else 0
  }

  lemma {:induction false} DonePairsNone(b: seq<Byte>, p: seq<int>, done: seq<bool>, c: nat)
    requires c <= |done| && forall k :: 0 <= k < c ==> !done[k]
    ensures DonePairs(b, p, done, c) == 0
  {
    if c > 0 { DonePairsNone(b, p, done, c - 1); }
  }

  lemma {:induction false} DonePairsNext(b: seq<Byte>, p: seq<int>, done: seq<bool>, ss: nat, c: nat)
    requires c <= |done| && ss < |done| && !done[ss]
    ensures DonePairs(b, p, done[ss := true], c) ==
            DonePairs(b, p, done, c) + if ss < c then KeyPairs(b, p, 256 * ss, 256 * ss + 256) else 0
  {
    hide KeyPairs;
    if c > 0 { DonePairsNext(b, p, done, ss, c - 1); }
  }

  /** Big buckets lie apart, so together they cost no more than the block. */
  lemma {:induction false} DonePairsMost(b: seq<Byte>, p: seq<int>, done: seq<bool>, c: nat)
    requires c <= |done| && Bucketed(Keys(b), p)
    ensures DonePairs(b, p, done, c) <= KeyPairs(b, p, 0, 256 * c)
  {
    hide KeyPairs, Bucketed;
    if c > 0 {
      DonePairsMost(b, p, done, c - 1);
      KeyPairsApart(b, p, 0, 256 * (c - 1), 256 * c);
    }
  }

  lemma KeyPairsAll(b: seq<Byte>, p: seq<int>)
    requires Bucketed(Keys(b), p)
    ensures KeyPairs(b, p, 0, RADIX) == Repeats(b)
  {
    hide Pairs, Less, IsPerm, Repeats;
    LessAll(Keys(b), RADIX);
    LessAll(Keys(b), 0);
    KeysInRange(b);
    PairsAll(b, p);
  }

  /** What the next big bucket costs, and that all together stay below the price of the block. */
  lemma BigPairs(b: seq<Byte>, p0: seq<int>, p: seq<int>, done: seq<bool>, ss: Byte)
    requires Bucketed(Keys(b), p0) && Bucketed(Keys(b), p) && |done| == 256 && !done[ss]
    ensures DonePairs(b, p0, done, 256) + KeyPairs(b, p, 256 * (ss as int), 256 * (ss as int) + 256) ==
            DonePairs(b, p0, done[ss := true], 256) <= Repeats(b)
  {
    hide KeyPairs, Bucketed, DonePairs;
    DonePairsNext(b, p0, done, ss, 256);
    KeyPairsTidy(b, p0, p, 256 * (ss as int), 256 * (ss as int) + 256);
    DonePairsMost(b, p0, done[ss := true], 256);
    KeyPairsAll(b, p0);
  }

  /** The three steps for one big bucket. AssertH 1006 is the requirement that it is not done. */
  method BigBucket(ptr: array<int>, block: array<int>, quadrant: array<int>, bigDone: array<bool>, ftab: array<int>,
                   nblock: nat, ss: Byte, i: int, budget0: int, ghost b: seq<Byte>) returns (budget: int)
    requires ptr != block && ptr != quadrant && ptr != ftab && ftab != block && ftab != quadrant && block != quadrant
    requires N_OVERSHOOT < nblock == |b| <= 900000 && ptr.Length == nblock
    requires Extended(block[..], b) && Ranks(quadrant[..], b) && bigDone.Length == 256 && !bigDone[ss]
    requires Tidy(b, ptr[..], ftab[..], bigDone[..]) && budget0 >= 0
    modifies ptr, quadrant, ftab, bigDone
    ensures budget >= 0 ==> Tidy(b, ptr[..], ftab[..], bigDone[..]) && Ranks(quadrant[..], b)
    ensures budget >= 0 ==> bigDone[..] == old(bigDone[..])[ss := true]
    ensures budget0 - 13 * KeyPairs(b, old(ptr[..]), 256 * (ss as int), 256 * (ss as int) + 256) <= budget <= budget0
  {
    hide Tidy, Ranks, SmallSorted, KeyPairs;
    budget := SortSmalls(ptr, block, quadrant, bigDone, ftab, nblock, ss, budget0, b);
    if budget < 0 { return; }
    ghost var done := bigDone[..];
    FinishBig(ptr, block, bigDone, ftab, nblock, ss, b);
    assert bigDone[..][ss];
    if i < 255 { var _ := UpdateRanks(ptr, quadrant, bigDone, ftab, nblock, ss, b); }
  }

  /** The opening: counting, overshoot, radix sort. */
  method Prepare(ptr: array<int>, block: array<int>, quadrant: array<int>, ftab: array<int>, nblock: nat,
                 ghost b: seq<Byte>)
    requires ptr != block && ptr != quadrant && ptr != ftab && ftab != block && ftab != quadrant && block != quadrant
    requires N_OVERSHOOT < nblock == |b| <= 900000 && ptr.Length == nblock && ftab.Length == RADIX + 1
    requires block.Length == quadrant.Length == nblock + N_OVERSHOOT
    requires forall i :: 0 <= i < nblock ==> block[i] == b[i]
    modifies ptr, block, quadrant, ftab
    ensures Extended(block[..], b) && Ranks(quadrant[..], b) && Bucketed(Keys(b), ptr[..])
    ensures forall q :: 0 <= q <= RADIX ==> ftab[q] == Less(Keys(b), q)
  {
    hide Key, Less, Count, Bucketed;
    CountPairs(block, quadrant, ftab, nblock, b);
    CopyOvershoot(block, quadrant, nblock, b);
    ZeroRanks(quadrant[..], b);
    KeysInRange(b);
    Accumulate(ftab, Keys(b));
    PlacePairs(block, ptr, ftab, nblock, b);
    LessAll(Keys(b), RADIX);
  }

  lemma KeysInRange(b: seq<Byte>)
    ensures forall i :: 0 <= i < |b| ==> 0 <= Keys(b)[i] < RADIX
  {
  }

  /**
    mainSort: unless the budget ran out, ptr lists the rotations of the block in non-decreasing
    order. The block itself is unchanged. The budget does not run out as long as it covers thirteen
    times the price of the block, and nothing is spent where any two rotations differ early.
  */
  method Sort(ptr: array<int>, block: array<int>, quadrant: array<int>, ftab: array<int>, nblock: nat, budget0: int,
              ghost b: seq<Byte>)
    returns (budget: int)
    requires ptr != block && ptr != quadrant && ptr != ftab && ftab != block && ftab != quadrant && block != quadrant
    requires N_OVERSHOOT < nblock == |b| <= 900000 && ptr.Length == nblock && ftab.Length == RADIX + 1
    requires block.Length == quadrant.Length == nblock + N_OVERSHOOT && budget0 >= 0
    requires forall i :: 0 <= i < nblock ==> block[i] == b[i]
    modifies ptr, block, quadrant, ftab
    ensures forall i :: 0 <= i < nblock ==> block[i] == b[i]
    ensures budget >= 0 ==> SortedRotations(b, ptr[..])
    ensures budget0 - 13 * Repeats(b) <= budget <= budget0
    ensures (exists h: nat :: h <= 20 && Apart(b, h)) ==> budget == budget0
  {
    hide Tidy, Ranks, Less, Bucketed, DoneSoFar, SortedRotations, KeyPairs, DonePairs, Repeats, Apart;
    budget := budget0;
    EarlyApart(b);
    Prepare(ptr, block, quadrant, ftab, nblock, b);
    ghost var p0 := ptr[..];
    var bigDone := new bool[256](_ => false);
    var runningOrder := RunningOrder(ftab);
    ghost var order := runningOrder[..];
    TidyStart(b, ptr[..], ftab[..], bigDone[..]);
    DoneNone(order, bigDone[..]);
    DonePairsNone(b, p0, bigDone[..], 256);
    for i := 0 to 256
      invariant Extended(block[..], b) && Ranks(quadrant[..], b) && Tidy(b, ptr[..], ftab[..], bigDone[..])
      invariant runningOrder[..] == order && DoneSoFar(order, bigDone[..], i) && budget >= 0
      invariant budget0 - 13 * DonePairs(b, p0, bigDone[..], 256) <= budget <= budget0
      invariant budget0 - 13 * Repeats(b) <= budget
    {
      DoneNext(order, bigDone[..], i);
      var ss := runningOrder[i];
      TidyFacts(b, ptr[..], ftab[..], bigDone[..]);
      BigPairs(b, p0, ptr[..], bigDone[..], ss);
      budget := BigBucket(ptr, block, quadrant, bigDone, ftab, nblock, ss, i, budget, b);
      if budget < 0 { return; }
    }
    DoneAll(order, bigDone[..]);
    TidyEnd(b, ptr[..], ftab[..], bigDone[..]);
  }

  lemma EarlyApart(b: seq<Byte>)
    ensures (exists h: nat :: h <= 20 && Apart(b, h)) ==> Repeats(b) == 0
  {
    hide Apart, Repeats;
    if h: nat :| h <= 20 && Apart(b, h) { ApartMore(b, h, 20); }
    RepeatsNone(b);
  }

  lemma DoneNone(order: seq<int>, done: seq<bool>)
    requires |order| == |done| == 256 && IsPerm(order) && forall c :: 0 <= c < 256 ==> !done[c]
    ensures DoneSoFar(order, done, 0)
  {
  }
}
