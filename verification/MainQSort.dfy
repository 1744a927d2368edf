/**
  dep/bzip2/blocksort.c, mainQSort3 (lines 558-717): the three-way string quicksort. A pending
  segment carries the number d of characters its rotations share.
*/
module MainQSort {
  import opened Common
  import opened Rotation
  import opened Partition
  import opened MainCompare
  import opened MainBudget
  import opened MainSimpleSort
  import FQ = FallbackQSort

  const SMALL_THRESH := 20
  const DEPTH_THRESH := 14
  const STACK_SIZE := 100

  datatype Seg = Seg(lo: int, hi: int, d: int)

  /** mnextsize. */
  function Size(s: Seg): int {
    s.hi - s.lo
  }

  // ----- what is pending -----

  ghost predicate Together(st: seq<Seg>, x: int, y: int) {
    exists k :: 0 <= k < |st| && st[k].lo <= x && y <= st[k].hi
  }

  ghost predicate InRange(f: seq<int>, b: seq<Byte>, lo: int, hi: int) {
    0 <= lo && hi < |f| && forall x :: lo <= x <= hi ==> 0 <= f[x] < |b|
  }

  lemma InRangeRearranged(f: seq<int>, g: seq<int>, b: seq<Byte>, lo: int, hi: int)
    requires InRange(f, b, lo, hi) && Rearranged(f, g, lo, hi + 1)
    ensures InRange(g, b, lo, hi)
  {
    forall x | lo <= x <= hi ensures 0 <= g[x] < |b| {
      var k := RearrangedFrom(f, g, lo, hi + 1, x);
    }
  }

  /** What is still out of order in [lo, hi] is inside one of the segments. */
  ghost predicate Pending(st: seq<Seg>, f: seq<int>, b: seq<Byte>, lo: int, hi: int) {
    && InRange(f, b, lo, hi)
    && forall x, y :: lo <= x < y <= hi ==> Leq(b, f[x], f[y]) || Together(st, x, y)
  }

  /** Each segment's rotations share its number of characters. */
  ghost predicate Shared(st: seq<Seg>, f: seq<int>, b: seq<Byte>) {
    forall k :: 0 <= k < |st| ==> st[k].d >= 0 && Share(f, b, st[k].d, st[k].lo, st[k].hi)
  }

  ghost predicate Disjoint(st: seq<Seg>) {
    forall j, k :: 0 <= j < k < |st| ==> st[j].hi < st[k].lo || st[k].hi < st[j].lo
  }

  /** Segments lie within [lo, hi]; two levels up the stack they are at most half as large. */
  ghost predicate Stacked(st: seq<Seg>, lo: int, hi: int)
    requires lo <= hi + 1
  {
    && Disjoint(st)
    && (forall k :: 0 <= k < |st| ==> lo <= st[k].lo <= st[k].hi + 1 <= hi + 1 && 0 <= st[k].d <= DEPTH)
    && (forall k :: 0 <= k < |st| ==> Size(st[k]) + 1 <= FQ.Halved(hi - lo + 1, k / 2))
  }

  /** What remains to be done for a segment: less with fewer entries, and with more characters shared. */
  function Load(s: Seg): int {
    4 * ((Size(s) + 1) * (DEPTH + 2 - s.d)) + 1
  }

  ghost function Work(st: seq<Seg>): int {
    if st == [] then 0 else Work(st[..|st| - 1]) + Load(st[|st| - 1])
  }

  lemma LoadPositive(s: Seg)
    requires Size(s) >= -1 && s.d <= DEPTH
    ensures Load(s) >= 1
  {
    ProductNonNegative(Size(s) + 1, DEPTH + 2 - s.d);
  }

  lemma ProductNonNegative(a: int, c: int)
    requires a >= 0 && c >= 0
    ensures a * c >= 0
  {
  }

  lemma {:induction false} WorkNonNegative(st: seq<Seg>)
    requires forall k :: 0 <= k < |st| ==> Size(st[k]) >= -1 && st[k].d <= DEPTH
    ensures Work(st) >= 0
  {
    if st != [] {
      WorkNonNegative(st[..|st| - 1]);
      LoadPositive(st[|st| - 1]);
    }
  }

  lemma WorkPush(st: seq<Seg>, s: Seg)
    ensures Work(st + [s]) == Work(st) + Load(s)
  {
    assert (st + [s])[..|st|] == st;
  }

  // ----- what one round leaves -----

  /** After the round on [lo, hi] only `rest` is pending of it. */
  ghost predicate Leaves(rest: seq<Seg>, g: seq<int>, b: seq<Byte>, lo: int, hi: int) {
    && Pending(rest, g, b, lo, hi) && Shared(rest, g, b)
    && forall k :: 0 <= k < |rest| ==> lo <= rest[k].lo <= rest[k].hi + 1 <= hi + 1
  }

  lemma SortedLeaves(g: seq<int>, b: seq<Byte>, lo: int, hi: int)
    requires Sorted(g, b, lo, hi)
    ensures Leaves([], g, b, lo, hi)
  {
  }

  lemma ShareNarrow(g: seq<int>, b: seq<Byte>, d: nat, lo: int, hi: int, lo': int, hi': int)
    requires Share(g, b, d, lo, hi) && lo <= lo' && hi' <= hi
    ensures Share(g, b, d, lo', hi')
  {
  }

  /** The character d further on of an entry, as the source reads it. */
  lemma CharAt(block: seq<int>, b: seq<Byte>, p: int, d: nat)
    requires Extended(block, b) && 0 <= p < |b| && d <= N_OVERSHOOT - 1
    ensures p + d < |block| && block[p + d] == b[Adv(|b|, p, d)]
  {
    hide Adv;
    AdvWrap(|b|, p, d);
  }

  /** All entries of a stretch have the same next character: one more is shared. */
  lemma ShareMore(g: seq<int>, block: seq<int>, b: seq<Byte>, d: nat, med: int, lo: int, hi: int)
    requires Extended(block, b) && Share(g, b, d, lo, hi) && d <= DEPTH_THRESH
    requires forall x :: lo <= x <= hi ==> 0 <= g[x] + d < |block| && block[g[x] + d] == med
    ensures Share(g, b, d + 1, lo, hi)
  {
    hide Cmp, Extended, Adv;
    forall x, y | lo <= x <= hi && lo <= y <= hi ensures Cmp(b, g[x], g[y], d + 1) == 0 {
      CharAt(block, b, g[x], d);
      CharAt(block, b, g[y], d);
      CmpMore(b, g[x], g[y], d);
    }
  }

  /** Entries whose next characters differ are in order. */
  lemma CharOrder(block: seq<int>, b: seq<Byte>, d: nat, p: int, q: int)
    requires Extended(block, b) && d <= DEPTH_THRESH && 0 <= p < |b| && 0 <= q < |b| && Cmp(b, p, q, d) == 0
    requires 0 <= p + d < |block| && 0 <= q + d < |block| && block[p + d] < block[q + d]
    ensures Leq(b, p, q)
  {
    hide Cmp, Extended, Adv, Leq;
    CharAt(block, b, p, d);
    CharAt(block, b, q, d);
    LeqDiffer(b, p, q, d);
  }

  /** A partition leaves its three parts pending. */
  lemma PartedLeaves(g: seq<int>, block: seq<int>, b: seq<Byte>, d: nat, med: int, lo: int, n: int, m: int, hi: int)
    requires Extended(block, b) && Share(g, b, d, lo, hi) && d <= DEPTH_THRESH && Parted(g, block, d, med, lo, n, m, hi)
    ensures Leaves([Seg(lo, n, d), Seg(m, hi, d), Seg(n + 1, m - 1, d + 1)], g, b, lo, hi)
  {
    hide Extended, Leq, Cmp;
    var rest := [Seg(lo, n, d), Seg(m, hi, d), Seg(n + 1, m - 1, d + 1)];
    ShareNarrow(g, b, d, lo, hi, lo, n);
    ShareNarrow(g, b, d, lo, hi, m, hi);
    ShareNarrow(g, b, d, lo, hi, n + 1, m - 1);
    ShareMore(g, block, b, d, med, n + 1, m - 1);
    forall x, y | lo <= x < y <= hi ensures Leq(b, g[x], g[y]) || Together(rest, x, y) {
      if y <= n {
        assert rest[0].lo <= x && y <= rest[0].hi;
      } else if x >= m {
        assert rest[1].lo <= x && y <= rest[1].hi;
      } else if n < x && y < m {
        assert rest[2].lo <= x && y <= rest[2].hi;
      } else {
        CharOrder(block, b, d, g[x], g[y]);
      }
    }
  }

  lemma EqualLeaves(g: seq<int>, block: seq<int>, b: seq<Byte>, d: nat, med: int, lo: int, hi: int)
    requires Extended(block, b) && Share(g, b, d, lo, hi) && d <= DEPTH_THRESH && Parted(g, block, d, med, lo, lo - 1, hi + 1, hi)
    ensures Leaves([Seg(lo, hi, d + 1)], g, b, lo, hi)
  {
    hide Extended, Leq, Cmp;
    ShareMore(g, block, b, d, med, lo, hi);
    var rest := [Seg(lo, hi, d + 1)];
    forall x, y | lo <= x < y <= hi ensures Together(rest, x, y) {
      assert rest[0].lo <= x && y <= rest[0].hi;
    }
  }

  // ----- the median -----

  /** mmed3: the middle one of three. */
  function Med3(a0: int, b0: int, c: int): (r: int)
    ensures r == a0 || r == b0 || r == c
    ensures r == Max(Min(a0, b0), Min(Max(a0, b0), c))
  {
    var a, b := if a0 > b0 then b0 else a0, if a0 > b0 then a0 else b0;
    if b > c then (if a > c then a else c) else b
  }

  // ----- one round -----

  /** Sorted, all equal, or split. */
  datatype Outcome = Done | AllEqual | Split3

  /** The median is one of the characters, so the middle part is not empty. */
  lemma MiddleFilled(f: seq<int>, g: seq<int>, key: seq<int>, d: int, med: int, lo: int, n: int, m: int, hi: int,
                     p: int)
    requires Keyed(f, |key|, d, lo, hi + 1) && Rearranged(f, g, lo, hi + 1)
    requires lo <= p <= hi && key[f[p] + d] == med && Parted(g, key, d, med, lo, n, m, hi)
    ensures n + 1 < m
  {
    RearrangedSymmetric(f, g, lo, hi + 1);
    var q := RearrangedFrom(g, f, lo, hi + 1, p);
    assert key[g[q] + d] == med;
  }

  lemma ShareKeyed(f: seq<int>, block: seq<int>, b: seq<Byte>, d: nat, lo: int, hi: int)
    requires Share(f, b, d, lo, hi) && Extended(block, b) && d <= DEPTH_THRESH
    ensures Keyed(f, |block|, d, lo, hi + 1)
  {
  }

  /** One round of the main loop on a segment. */
  method Round(ptr: array<int>, block: array<int>, quadrant: array<int>, nblock: nat, top: Seg, budget0: int,
               ghost b: seq<Byte>)
    returns (budget: int, outcome: Outcome, n: int, m: int, ghost rest: seq<Seg>)
    requires ptr != block && ptr != quadrant && Extended(block[..], b) && Ranks(quadrant[..], b) && nblock == |b|
    requires 0 <= top.lo <= top.hi + 1 && top.hi < ptr.Length <= 900000 && 0 <= top.d <= DEPTH
    requires Share(ptr[..], b, top.d, top.lo, top.hi)
    modifies ptr
    ensures Rearranged(old(ptr[..]), ptr[..], top.lo, top.hi + 1)
    ensures !(outcome.Done? && budget < 0) ==> Leaves(rest, ptr[..], b, top.lo, top.hi)
    ensures !outcome.Done? ==> Size(top) >= SMALL_THRESH && top.d <= DEPTH_THRESH && budget == budget0
    ensures budget0 - 13 * Pairs(b, old(ptr[..]), top.lo, top.hi) <= budget <= budget0
    ensures match outcome
            case Done => rest == []
            case AllEqual => rest == [Seg(top.lo, top.hi, top.d + 1)]
            case Split3 => top.lo <= n + 1 < m <= top.hi + 1 &&
                           rest == [Seg(top.lo, n, top.d), Seg(m, top.hi, top.d), Seg(n + 1, m - 1, top.d + 1)]
  {
    hide Extended, Ranks, Share, Sorted, Leaves, Rearranged, Parted, Keyed, Cmp, Pairs;
    var lo, hi, d: nat := top.lo, top.hi, top.d;
    ghost var f0, k := ptr[..], block[..];
    budget, n, m, rest := budget0, 0, 0, [];
    if hi - lo < SMALL_THRESH || d > DEPTH_THRESH {
      budget := SimpleSort(ptr, block, quadrant, nblock, lo, hi, d, budget, b);
      if budget >= 0 { SortedLeaves(ptr[..], b, lo, hi); }
      return budget, Done, n, m, rest;
    }
    ShareKeyed(f0, k, b, d, lo, hi);
    KeyedAt(f0, |k|, d, lo, hi);
    var med := Med3(block[ptr[lo] + d], block[ptr[hi] + d], block[ptr[(lo + hi) / 2] + d]);
    ghost var p := if med == k[f0[lo] + d] then lo else if med == k[f0[hi] + d] then hi else (lo + hi) / 2;
    var allEqual;
    allEqual, n, m := Split(ptr, block, d, med, lo, hi);
    ShareRearranged(f0, ptr[..], b, d, lo, hi);
    MiddleFilled(f0, ptr[..], k, d, med, lo, n, m, hi, p);
    if allEqual {
      EqualLeaves(ptr[..], k, b, d, med, lo, hi);
      outcome, rest := AllEqual, [Seg(lo, hi, d + 1)];
    } else {
      PartedLeaves(ptr[..], k, b, d, med, lo, n, m, hi);
      PartedBounds(ptr[..], k, d, med, lo, n, m, hi);
      outcome, rest := Split3, [Seg(lo, n, d), Seg(m, hi, d), Seg(n + 1, m - 1, d + 1)];
    }
  }

  lemma KeyedAt(f: seq<int>, size: int, d: int, lo: int, hi: int)
    requires Keyed(f, size, d, lo, hi + 1)
    ensures 0 <= lo && hi < |f| && forall x :: lo <= x <= hi ==> 0 <= f[x] + d < size
  {
  }

  lemma PartedBounds(f: seq<int>, key: seq<int>, d: int, med: int, lo: int, n: int, m: int, hi: int)
    requires Parted(f, key, d, med, lo, n, m, hi)
    ensures lo <= n + 1 <= m <= hi + 1
  {
  }

  // ----- what the segments still cost -----

  /** The prices of the pending segments. */
  ghost function Owed(st: seq<Seg>, f: seq<int>, b: seq<Byte>): nat {
    if st == [] then 0 else Owed(st[..|st| - 1], f, b) + Pairs(b, f, st[|st| - 1].lo, st[|st| - 1].hi)
  }

  lemma OwedPush(st: seq<Seg>, s: Seg, f: seq<int>, b: seq<Byte>)
    ensures Owed(st + [s], f, b) == Owed(st, f, b) + Pairs(b, f, s.lo, s.hi)
  {
    hide Pairs;
    assert (st + [s])[..|st|] == st;
  }

  /** What lies outside of the rearranged stretch costs what it did. */
  lemma {:induction false} OwedOutside(st: seq<Seg>, f: seq<int>, g: seq<int>, b: seq<Byte>, lo: int, hi: int)
    requires Rearranged(f, g, lo, hi + 1) && forall k :: 0 <= k < |st| ==> st[k].hi < lo || hi < st[k].lo
    ensures Owed(st, f, b) == Owed(st, g, b)
  {
    hide Pairs, Count;
    if st != [] {
      var t, s := st[..|st| - 1], st[|st| - 1];
      assert forall k :: 0 <= k < |t| ==> t[k] == st[k];
      OwedOutside(t, f, g, b, lo, hi);
      PairsUnchanged(b, f, g, s.lo, s.hi);
    }
  }

  /** Rearranging the top segment changes no price. */
  lemma OwedRearranged(below: seq<Seg>, top: Seg, f: seq<int>, g: seq<int>, b: seq<Byte>, lo: int, hi: int)
    requires lo <= hi + 1 && Stacked(below + [top], lo, hi) && Rearranged(f, g, top.lo, top.hi + 1)
    ensures Owed(below, f, b) == Owed(below, g, b)
    ensures Owed(below + [top], f, b) == Owed(below, f, b) + Pairs(b, f, top.lo, top.hi)
    ensures Owed(below + [top], g, b) == Owed(below + [top], f, b)
  {
    hide Pairs, Rearranged, Owed;
    OwedPush(below, top, f, b);
    OwedPush(below, top, g, b);
    PairsRearranged(b, f, g, top.lo, top.hi);
    assert (below + [top])[|below|] == top;
    forall k | 0 <= k < |below| ensures below[k].hi < top.lo || top.hi < below[k].lo {
      assert (below + [top])[k] == below[k];
    }
    OwedOutside(below, f, g, b, top.lo, top.hi);
  }

  /** The parts of a segment cost no more than the segment, in whatever order they are pushed. */
  lemma OwedParts(below: seq<Seg>, top: Seg, n: int, m: int, n0: Seg, n1: Seg, n2: Seg, f: seq<int>, b: seq<Byte>)
    requires 0 <= top.lo <= n + 1 < m <= top.hi + 1 <= |f|
    requires OneOfSix(Seg(top.lo, n, top.d), Seg(m, top.hi, top.d), Seg(n + 1, m - 1, top.d + 1), n0, n1, n2)
    ensures Owed(below + [n0, n1, n2], f, b) <= Owed(below + [top], f, b)
  {
    hide Pairs, Owed;
    PairsApart(b, f, top.lo, n + 1, top.hi);
    PairsApart(b, f, n + 1, m, top.hi);
    OwedPush(below, top, f, b);
    OwedPush(below, n0, f, b);
    OwedPush(below + [n0], n1, f, b);
    OwedPush(below + [n0] + [n1], n2, f, b);
    assert below + [n0] + [n1] + [n2] == below + [n0, n1, n2];
  }

  lemma OwedDeeper(below: seq<Seg>, top: Seg, d: int, f: seq<int>, b: seq<Byte>)
    ensures Owed(below + [Seg(top.lo, top.hi, d)], f, b) == Owed(below + [top], f, b)
  {
    hide Pairs, Owed;
    OwedPush(below, top, f, b);
    OwedPush(below, Seg(top.lo, top.hi, d), f, b);
  }

  lemma OwedStart(f: seq<int>, b: seq<Byte>, s: Seg)
    ensures Owed([s], f, b) == Pairs(b, f, s.lo, s.hi)
  {
    hide Pairs;
    assert [s][..0] == [];
  }

  // ----- the stack -----

  /** The invariant of the main loop. */
  ghost predicate Sorting(f0: seq<int>, f: seq<int>, b: seq<Byte>, st: seq<Seg>, lo: int, hi: int) {
    && 0 <= lo <= hi < |f| <= 900000
    && Rearranged(f0, f, lo, hi + 1)
    && Stacked(st, lo, hi) && Pending(st, f, b, lo, hi) && Shared(st, f, b)
  }

  lemma SortingStart(f: seq<int>, b: seq<Byte>, d: nat, lo: int, hi: int)
    requires 0 <= lo <= hi < |f| <= 900000 && Share(f, b, d, lo, hi) && d <= DEPTH
    ensures Sorting(f, f, b, [Seg(lo, hi, d)], lo, hi) && Work([Seg(lo, hi, d)]) >= 0
  {
    hide Leq, Cmp;
    var st := [Seg(lo, hi, d)];
    forall x, y | lo <= x < y <= hi ensures Together(st, x, y) {
      assert st[0].lo <= x && y <= st[0].hi;
    }
    WorkNonNegative(st);
  }

  lemma SortingTop(f0: seq<int>, f: seq<int>, b: seq<Byte>, below: seq<Seg>, top: Seg, lo: int, hi: int)
    requires Sorting(f0, f, b, below + [top], lo, hi)
    ensures lo <= top.lo <= top.hi + 1 <= hi + 1 && 0 <= lo <= hi < |f| <= 900000 && 0 <= top.d <= DEPTH
    ensures Share(f, b, top.d, top.lo, top.hi)
    ensures Size(top) + 1 <= FQ.Halved(hi - lo + 1, |below| / 2)
  {
    assert (below + [top])[|below|] == top;
  }

  lemma SortingEnd(f0: seq<int>, f: seq<int>, b: seq<Byte>, lo: int, hi: int)
    requires Sorting(f0, f, b, [], lo, hi)
    ensures Rearranged(f0, f, lo, hi + 1) && Sorted(f, b, lo, hi)
  {
    forall x, y | lo <= x < y <= hi ensures Leq(b, f[x], f[y]) {
      assert !Together([], x, y);
    }
  }

  /** Replacing the top segment by what its round left pending. */
  lemma PendingReplace(below: seq<Seg>, top: Seg, rest: seq<Seg>, f: seq<int>, g: seq<int>, b: seq<Byte>, lo: int,
                       hi: int)
    requires lo <= top.lo <= top.hi + 1 <= hi + 1 && Disjoint(below + [top]) && Pending(below + [top], f, b, lo, hi)
    requires Rearranged(f, g, top.lo, top.hi + 1) && Leaves(rest, g, b, top.lo, top.hi)
    ensures Pending(below + rest, g, b, lo, hi)
  {
    hide Leq, SameItems;
    RearrangedWiden(f, g, top.lo, top.hi + 1, lo, hi + 1);
    InRangeRearranged(f, g, b, lo, hi);
    var s0 := below + [top];
    assert s0[|below|] == top;
    forall x, y | lo <= x < y <= hi ensures Leq(b, g[x], g[y]) || Together(below + rest, x, y) {
      if Together(below, x, y) {
        var k :| 0 <= k < |below| && below[k].lo <= x && y <= below[k].hi;
        assert (below + rest)[k] == below[k];
      } else if top.lo <= x && y <= top.hi {
        if Together(rest, x, y) {
          var k :| 0 <= k < |rest| && rest[k].lo <= x && y <= rest[k].hi;
          assert (below + rest)[|below| + k] == rest[k];
        }
      } else {
        var x', y' := x, y;
        if top.lo <= x <= top.hi { x' := RearrangedFrom(f, g, top.lo, top.hi + 1, x); }
        if top.lo <= y <= top.hi { y' := RearrangedFrom(f, g, top.lo, top.hi + 1, y); }
        assert g[x] == f[x'] && g[y] == f[y'] && x' < y';
        forall k | 0 <= k < |s0| ensures !(s0[k].lo <= x' && y' <= s0[k].hi) {
          if k < |below| { assert s0[k] == below[k] && !(below[k].lo <= x && y <= below[k].hi); }
        }
      }
    }
  }

  lemma SharedReplace(below: seq<Seg>, top: Seg, rest: seq<Seg>, f: seq<int>, g: seq<int>, b: seq<Byte>)
    requires Disjoint(below + [top]) && Shared(below + [top], f, b) && Shared(rest, g, b)
    requires Rearranged(f, g, top.lo, top.hi + 1)
    ensures Shared(below + rest, g, b)
  {
    hide Cmp, Count;
    var s0, s1 := below + [top], below + rest;
    assert s0[|below|] == top;
    forall k | 0 <= k < |s1| ensures s1[k].d >= 0 && Share(g, b, s1[k].d, s1[k].lo, s1[k].hi) {
      if k < |below| {
        assert s1[k] == s0[k] && (s0[k].hi < top.lo || top.hi < s0[k].lo);
        assert Share(f, b, s0[k].d, s0[k].lo, s0[k].hi);
        forall x | s1[k].lo <= x <= s1[k].hi ensures g[x] == f[x] {}
      } else {
        assert s1[k] == rest[k - |below|];
      }
    }
  }

  lemma SortingNext(f0: seq<int>, f: seq<int>, g: seq<int>, b: seq<Byte>, below: seq<Seg>, top: Seg, rest: seq<Seg>,
                    lo: int, hi: int)
    requires Sorting(f0, f, b, below + [top], lo, hi)
    requires Rearranged(f, g, top.lo, top.hi + 1) && Leaves(rest, g, b, top.lo, top.hi)
    requires Stacked(below + rest, lo, hi)
    ensures Sorting(f0, g, b, below + rest, lo, hi)
  {
    hide Share, Leq;
    assert (below + [top])[|below|] == top;
    PendingReplace(below, top, rest, f, g, b, lo, hi);
    SharedReplace(below, top, rest, f, g, b);
    RearrangedWiden(f, g, top.lo, top.hi + 1, lo, hi + 1);
    RearrangedChain(f0, f, g, lo, hi + 1);
  }

  // ----- pushing -----

  /** rest again, in another order. */
  ghost predicate Reordered(rest: seq<Seg>, p: seq<Seg>) {
    && |rest| == |p|
    && (forall k :: 0 <= k < |rest| ==> rest[k] in p)
    && (forall k :: 0 <= k < |p| ==> p[k] in rest)
  }

  lemma LeavesReordered(rest: seq<Seg>, p: seq<Seg>, g: seq<int>, b: seq<Byte>, lo: int, hi: int)
    requires Leaves(rest, g, b, lo, hi) && Reordered(rest, p)
    ensures Leaves(p, g, b, lo, hi)
  {
    hide Share, Leq;
    forall x, y | lo <= x < y <= hi ensures Leq(b, g[x], g[y]) || Together(p, x, y) {
      if Together(rest, x, y) {
        var k :| 0 <= k < |rest| && rest[k].lo <= x && y <= rest[k].hi;
        assert rest[k] in p;
        var l :| 0 <= l < |p| && p[l] == rest[k];
      }
    }
    forall k | 0 <= k < |p|
      ensures p[k].d >= 0 && Share(g, b, p[k].d, p[k].lo, p[k].hi) && lo <= p[k].lo <= p[k].hi + 1 <= hi + 1
    {
      assert p[k] in rest;
      var l :| 0 <= l < |rest| && rest[l] == p[k];
    }
  }

  /** n0, n1, n2 are x, y, z in some order. */
  predicate OneOfSix(x: Seg, y: Seg, z: Seg, n0: Seg, n1: Seg, n2: Seg) {
    || (n0 == x && n1 == y && n2 == z) || (n0 == x && n1 == z && n2 == y) || (n0 == y && n1 == x && n2 == z)
    || (n0 == y && n1 == z && n2 == x) || (n0 == z && n1 == x && n2 == y) || (n0 == z && n1 == y && n2 == x)
  }

  /** The three conditional exchanges: the parts by decreasing size. */
  method BySize(x: Seg, y: Seg, z: Seg) returns (n0: Seg, n1: Seg, n2: Seg)
    ensures Size(n0) >= Size(n1) >= Size(n2)
    ensures Reordered([x, y, z], [n0, n1, n2])
    ensures OneOfSix(x, y, z, n0, n1, n2)
  {
    n0, n1, n2 := x, y, z;
    if Size(n0) < Size(n1) { n0, n1 := n1, n0; }
    if Size(n1) < Size(n2) { n1, n2 := n2, n1; }
    if Size(n0) < Size(n1) { n0, n1 := n1, n0; }
  }

  /** Three parts of a segment, and the load they take off. */
  lemma LoadSplit(a: Seg, c: Seg, e: Seg, top: Seg)
    requires a.d == top.d && c.d == top.d && e.d == top.d + 1
    requires Size(a) + 1 >= 0 && Size(c) + 1 >= 0 && Size(e) + 1 >= 1
    requires (Size(a) + 1) + (Size(c) + 1) + (Size(e) + 1) == Size(top) + 1
    ensures Load(a) + Load(c) + Load(e) < Load(top)
  {
    var q := DEPTH + 2 - top.d;
    SplitProduct(Size(a) + 1, Size(c) + 1, Size(e) + 1, q);
  }

  lemma SplitProduct(a: int, c: int, e: int, q: int)
    ensures a * q + c * q + e * (q - 1) == (a + c + e) * q - e
  {
  }

  lemma LoadDeeper(top: Seg)
    requires Size(top) + 1 >= 1
    ensures Load(Seg(top.lo, top.hi, top.d + 1)) < Load(top)
  {
    SplitProduct(0, 0, Size(top) + 1, DEPTH + 2 - top.d);
  }

  lemma HalvedNext(n: nat, k: nat)
    ensures FQ.Halved(n, k + 1) == FQ.Halved(n, k) / 2
  {
  }

  /** Half of what fits at level k fits one and two levels up. */
  lemma HalfSize(n: nat, k: nat, c: int)
    requires 2 * c <= FQ.Halved(n, k / 2)
    ensures c <= FQ.Halved(n, (k + 1) / 2) && c <= FQ.Halved(n, (k + 2) / 2)
  {
    HalvedNext(n, k / 2);
    assert (k + 2) / 2 == k / 2 + 1;
    assert (k + 1) / 2 == k / 2 || (k + 1) / 2 == k / 2 + 1;
  }

  lemma DisjointPush(below: seq<Seg>, top: Seg, p: seq<Seg>)
    requires Disjoint(below + [top]) && Disjoint(p)
    requires forall k :: 0 <= k < |p| ==> top.lo <= p[k].lo && p[k].hi <= top.hi
    ensures Disjoint(below + p)
  {
    var s0, s1 := below + [top], below + p;
    assert s0[|below|] == top;
    forall j, k | 0 <= j < k < |s1| ensures s1[j].hi < s1[k].lo || s1[k].hi < s1[j].lo {
      if j < |below| {
        assert s1[j] == s0[j];
        if k < |below| { assert s1[k] == s0[k]; } else { assert s1[k] == p[k - |below|]; }
      } else {
        assert s1[j] == p[j - |below|] && s1[k] == p[k - |below|];
      }
    }
  }

  /**
    The largest part is pushed first, so two levels up the stack segments are halved: the smallest
    has at most a third of the segment, the middle one at most half.
  */
  lemma StackedPush(below: seq<Seg>, top: Seg, n0: Seg, n1: Seg, n2: Seg, lo: int, hi: int)
    requires lo <= hi + 1 && Stacked(below + [top], lo, hi) && Disjoint([n0, n1, n2])
    requires Size(n0) >= Size(n1) >= Size(n2) >= -1 && (Size(n0) + 1) + (Size(n1) + 1) + (Size(n2) + 1) <= Size(top) + 1
    requires forall k :: 0 <= k < 3 ==> var s := [n0, n1, n2][k]; top.lo <= s.lo <= s.hi + 1 <= top.hi + 1 && 0 <= s.d <= DEPTH
    ensures Stacked(below + [n0, n1, n2], lo, hi)
  {
    hide FQ.Halved, Disjoint;
    var n, k, p := hi - lo + 1, |below|, [n0, n1, n2];
    var s0, s1 := below + [top], below + p;
    assert s0[k] == top;
    HalfSize(n, k, Size(n1) + 1);
    HalfSize(n, k, Size(n2) + 1);
    assert p[0] == n0 && p[1] == n1 && p[2] == n2;
    forall j | 0 <= j < |s1|
      ensures lo <= s1[j].lo <= s1[j].hi + 1 <= hi + 1 && 0 <= s1[j].d <= DEPTH && Size(s1[j]) + 1 <= FQ.Halved(n, j / 2)
    {
      if j < k { assert s1[j] == s0[j]; } else { assert s1[j] == p[j - k]; }
    }
    DisjointPush(below, top, p);
  }

  lemma StackedReplace(below: seq<Seg>, top: Seg, p: Seg, lo: int, hi: int)
    requires lo <= hi + 1 && Stacked(below + [top], lo, hi) && p.lo == top.lo && p.hi == top.hi && 0 <= p.d <= DEPTH
    ensures Stacked(below + [p], lo, hi)
  {
    var s0, s1 := below + [top], below + [p];
    assert s0[|below|] == top && s1[|below|] == p;
    forall j | 0 <= j < |below| ensures s1[j] == s0[j] {}
  }

  lemma StackedPop(below: seq<Seg>, top: Seg, lo: int, hi: int)
    requires lo <= hi + 1 && Stacked(below + [top], lo, hi)
    ensures Stacked(below, lo, hi)
  {
    var s0 := below + [top];
    forall j | 0 <= j < |below| ensures below[j] == s0[j] {}
  }

  lemma StackedWork(st: seq<Seg>, lo: int, hi: int)
    requires lo <= hi + 1 && Stacked(st, lo, hi)
    ensures Work(st) >= 0
  {
    WorkNonNegative(st);
  }

  /** Three segments inside top, apart from each other, that cover it. */
  ghost predicate Covers(top: Seg, n0: Seg, n1: Seg, n2: Seg) {
    && Disjoint([n0, n1, n2])
    && (Size(n0) + 1) + (Size(n1) + 1) + (Size(n2) + 1) == Size(top) + 1
    && Inside(n0, top) && Inside(n1, top) && Inside(n2, top)
    && Load(n0) + Load(n1) + Load(n2) < Load(top)
  }

  predicate Inside(s: Seg, top: Seg) {
    top.lo <= s.lo <= s.hi + 1 <= top.hi + 1 && 0 <= s.d <= DEPTH
  }

  lemma CoversAny(top: Seg, x: Seg, y: Seg, z: Seg, n0: Seg, n1: Seg, n2: Seg)
    requires Covers(top, x, y, z) && OneOfSix(x, y, z, n0, n1, n2)
    ensures Covers(top, n0, n1, n2)
  {
    hide Load, Size, Inside;
    DisjointAny(x, y, z, n0, n1, n2);
  }

  lemma DisjointAny(x: Seg, y: Seg, z: Seg, n0: Seg, n1: Seg, n2: Seg)
    requires Disjoint([x, y, z]) && OneOfSix(x, y, z, n0, n1, n2)
    ensures Disjoint([n0, n1, n2])
  {
    var p := [x, y, z];
    assert p[0] == x && p[1] == y && p[2] == z;
  }

  lemma PartsCover(top: Seg, n: int, m: int)
    requires 0 <= top.d <= DEPTH_THRESH && top.lo <= n + 1 < m <= top.hi + 1
    ensures Covers(top, Seg(top.lo, n, top.d), Seg(m, top.hi, top.d), Seg(n + 1, m - 1, top.d + 1))
  {
    hide Load;
    LoadSplit(Seg(top.lo, n, top.d), Seg(m, top.hi, top.d), Seg(n + 1, m - 1, top.d + 1), top);
  }

  /** Every part of a split is pushed, and the bounds are kept. */
  lemma PushedParts(below: seq<Seg>, top: Seg, n0: Seg, n1: Seg, n2: Seg, lo: int, hi: int)
    requires lo <= hi + 1 && Stacked(below + [top], lo, hi)
    requires Covers(top, n0, n1, n2) && Size(n0) >= Size(n1) >= Size(n2)
    ensures Stacked(below + [n0, n1, n2], lo, hi)
    ensures Work(below + [n0, n1, n2]) < Work(below + [top])
  {
    hide Stacked, Load;
    StackedPush(below, top, n0, n1, n2, lo, hi);
    WorkPush(below, top);
    WorkPush(below, n0);
    WorkPush(below + [n0], n1);
    WorkPush(below + [n0] + [n1], n2);
    assert below + [n0] + [n1] + [n2] == below + [n0, n1, n2];
  }

  lemma PushedDeeper(below: seq<Seg>, top: Seg, lo: int, hi: int)
    requires lo <= hi + 1 && Stacked(below + [top], lo, hi) && 0 <= top.d <= DEPTH_THRESH && Size(top) >= 0
    ensures var s := Seg(top.lo, top.hi, top.d + 1);
            Stacked(below + [s], lo, hi) && Work(below + [s]) < Work(below + [top])
  {
    var s := Seg(top.lo, top.hi, top.d + 1);
    LoadDeeper(top);
    StackedReplace(below, top, s, lo, hi);
    WorkPush(below, top);
    WorkPush(below, s);
  }

  lemma Popped(below: seq<Seg>, top: Seg, lo: int, hi: int)
    requires lo <= hi + 1 && Stacked(below + [top], lo, hi)
    ensures Stacked(below + [], lo, hi) && below + [] == below && Work(below) < Work(below + [top])
  {
    assert below + [] == below;
    assert (below + [top])[|below|] == top;
    StackedPop(below, top, lo, hi);
    WorkPush(below, top);
    LoadPositive(top);
  }

  /** AssertH 1001 never fires: only segments of more than twenty entries are split. */
  lemma Shallow(n: nat, k: nat, size: int)
    requires n <= 900000 && size >= SMALL_THRESH && size + 1 <= FQ.Halved(n, k / 2)
    ensures k < 56
  {
    FQ.ShallowStack(n, k / 2);
  }

  lemma SortingStacked(f0: seq<int>, f: seq<int>, b: seq<Byte>, st: seq<Seg>, lo: int, hi: int)
    requires Sorting(f0, f, b, st, lo, hi)
    ensures lo <= hi && |f| <= 900000 && hi < |f| && 0 <= lo && Stacked(st, lo, hi) && Rearranged(f0, f, lo, hi + 1) && Work(st) >= 0
  {
    StackedWork(st, lo, hi);
  }

  /** The pushes after a split: the parts by decreasing size. */
  method PushParts(stack: array<Seg>, sp: int, top: Seg, n: int, m: int, ghost rest: seq<Seg>, ghost below: seq<Seg>,
                   ghost g: seq<int>, ghost b: seq<Byte>, ghost lo: int, ghost hi: int)
    returns (ghost pushed: seq<Seg>)
    requires 0 <= sp == |below| && sp + 3 <= stack.Length && stack[..sp] == below
    requires lo <= hi + 1 && Stacked(below + [top], lo, hi) && 0 <= top.d <= DEPTH_THRESH
    requires top.lo <= n + 1 < m <= top.hi + 1
    requires rest == [Seg(top.lo, n, top.d), Seg(m, top.hi, top.d), Seg(n + 1, m - 1, top.d + 1)]
    requires Leaves(rest, g, b, top.lo, top.hi)
    modifies stack
    ensures |pushed| == 3 && stack[..sp + 3] == below + pushed && Leaves(pushed, g, b, top.lo, top.hi)
    ensures Stacked(below + pushed, lo, hi) && Work(below + pushed) < Work(below + [top])
    ensures 0 <= top.lo && top.hi < |g| ==> Owed(below + pushed, g, b) <= Owed(below + [top], g, b)
  {
    hide Stacked, Leaves, Work, Covers, Size, Reordered, OneOfSix, Owed;
    var n0, n1, n2 := BySize(Seg(top.lo, n, top.d), Seg(m, top.hi, top.d), Seg(n + 1, m - 1, top.d + 1));
    pushed := [n0, n1, n2];
    LeavesReordered(rest, pushed, g, b, top.lo, top.hi);
    if 0 <= top.lo && top.hi < |g| { OwedParts(below, top, n, m, n0, n1, n2, g, b); }
    PartsCover(top, n, m);
    CoversAny(top, Seg(top.lo, n, top.d), Seg(m, top.hi, top.d), Seg(n + 1, m - 1, top.d + 1), n0, n1, n2);
    PushedParts(below, top, n0, n1, n2, lo, hi);
    stack[sp] := n0;
    stack[sp + 1] := n1;
    stack[sp + 2] := n2;
    assert stack[..sp + 3] == stack[..sp] + pushed;
  }

  /**
    mainQSort3: the segment is rearranged, and unless the budget ran out its rotations are in
    order. The stack of a hundred entries never fills. No pair of rotations is paid for more than
    thirteen times.
  */
  method QSort3(ptr: array<int>, block: array<int>, quadrant: array<int>, nblock: nat,
                loSt: int, hiSt: int, dSt: nat, budget0: int, ghost b: seq<Byte>)
    returns (budget: int)
    requires ptr != block && ptr != quadrant && Extended(block[..], b) && Ranks(quadrant[..], b) && nblock == |b|
    requires 0 <= loSt <= hiSt < ptr.Length <= 900000 && dSt <= DEPTH && Share(ptr[..], b, dSt, loSt, hiSt)
    modifies ptr
    ensures Rearranged(old(ptr[..]), ptr[..], loSt, hiSt + 1)
    ensures budget >= 0 ==> Sorted(ptr[..], b, loSt, hiSt)
    ensures budget0 - 13 * Pairs(b, old(ptr[..]), loSt, hiSt) <= budget <= budget0
  {
    hide Sorting, Stacked, Leaves, Rearranged, Share, Sorted, Work, Extended, Ranks, Size, Owed, Pairs;
    ghost var f0 := ptr[..];
    budget := budget0;
    var stack := new Seg[STACK_SIZE];
    var sp := 0;
    stack[sp] := Seg(loSt, hiSt, dSt);
    sp := sp + 1;
    ghost var st := [Seg(loSt, hiSt, dSt)];
    SortingStart(f0, b, dSt, loSt, hiSt);
    ghost var price := Pairs(b, f0, loSt, hiSt);
    OwedStart(f0, b, st[0]);
    assert stack[..sp] == st;
    while sp > 0
      invariant 0 <= sp == |st| <= 58 && stack[..sp] == st && stack.Length == STACK_SIZE
      invariant Sorting(f0, ptr[..], b, st, loSt, hiSt)
      invariant budget0 - 13 * price + 13 * Owed(st, ptr[..], b) <= budget <= budget0
      decreases Work(st)
    {
      assert sp < STACK_SIZE - 2;
      ghost var f, below := ptr[..], st[..sp - 1];
      sp := sp - 1;
      var top := stack[sp];
      assert st == below + [top] && stack[..sp] == below;
      SortingTop(f0, f, b, below, top, loSt, hiSt);
      SortingStacked(f0, f, b, st, loSt, hiSt);
      var outcome, n, m; ghost var rest;
      budget, outcome, n, m, rest := Round(ptr, block, quadrant, nblock, top, budget, b);
      OwedRearranged(below, top, f, ptr[..], b, loSt, hiSt);
      if outcome.Done? {
        if budget < 0 {
          WholeRearranged(f0, f, ptr[..], top, loSt, hiSt);
          return;
        }
        Popped(below, top, loSt, hiSt);
        st := below;
      } else if outcome.AllEqual? {
        OwedDeeper(below, top, top.d + 1, ptr[..], b);
        PushedDeeper(below, top, loSt, hiSt);
        stack[sp] := Seg(top.lo, top.hi, top.d + 1);
        sp := sp + 1;
        st := below + rest;
      } else {
        Shallow(hiSt - loSt + 1, |below|, Size(top));
        rest := PushParts(stack, sp, top, n, m, rest, below, ptr[..], b, loSt, hiSt);
        sp := sp + 3;
        st := below + rest;
      }
      assert stack[..sp] == st;
      SortingNext(f0, f, ptr[..], b, below, top, rest, loSt, hiSt);
      SortingStacked(f0, ptr[..], b, st, loSt, hiSt);
    }
    SortingEnd(f0, ptr[..], b, loSt, hiSt);
  }

  lemma WholeRearranged(f0: seq<int>, f: seq<int>, g: seq<int>, top: Seg, lo: int, hi: int)
    requires Rearranged(f0, f, lo, hi + 1) && Rearranged(f, g, top.lo, top.hi + 1) && lo <= top.lo && top.hi <= hi
    ensures Rearranged(f0, g, lo, hi + 1)
  {
    RearrangedWiden(f, g, top.lo, top.hi + 1, lo, hi + 1);
    RearrangedChain(f0, f, g, lo, hi + 1);
  }
}
