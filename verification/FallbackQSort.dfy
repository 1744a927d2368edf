/**
  dep/bzip2/blocksort.c, fallbackSimpleSort and fallbackQSort3: sorting a stretch of `fmap`
  by the equivalence class of each entry, with an explicit stack of pending segments.
*/
module FallbackQSort {
  import opened Common
  import opened Partition

  const SMALL_THRESH := 10
  const STACK_SIZE := 100

  /** Entries lo, ..., hi - 1 of `f` are in non-decreasing order of class. */
  ghost predicate Ordered(f: seq<int>, e: seq<int>, lo: int, hi: int)
    requires Keyed(f, |e|, 0, lo, hi)
  {
    forall x, y :: lo <= x < y < hi ==> e[f[x]] <= e[f[y]]
  }

  /** What a round of the final loop does: entries i + 1, ..., j - 1 slid down and v put at j - 1. */
  ghost predicate Slid(f: seq<int>, g: seq<int>, i: int, j: int, v: int) {
    && 0 <= i < j <= |f| == |g|
    && (forall x :: i <= x < j - 1 ==> g[x] == f[x + 1])
    && g[j - 1] == v
    && (forall x :: j <= x < |f| ==> g[x] == f[x])
  }

  lemma SlidOrdered(f: seq<int>, g: seq<int>, e: seq<int>, i: int, j: int, hi: int)
    requires 0 <= i < j <= hi + 1 <= |f|
    requires Slid(f, g, i, j, f[i]) && Keyed(f, |e|, 0, i, hi + 1) && Keyed(g, |e|, 0, i, hi + 1)
    requires Ordered(f, e, i + 1, hi + 1)
    requires forall x :: i < x < j ==> e[f[x]] < e[f[i]]
    requires j <= hi ==> e[f[i]] <= e[f[j]]
    ensures Ordered(g, e, i, hi + 1)
  {
    forall x, y | i <= x < y < hi + 1 ensures e[g[x]] <= e[g[y]] {
      if y < j - 1 {
        assert g[x] == f[x + 1] && g[y] == f[y + 1];
      } else if j <= y {
        if x < j - 1 { assert g[x] == f[x + 1]; }
      } else {
        assert g[x] == f[x + 1];
      }
    }
  }

  /** Where a round of either loop stands: the hole left by v = f0[i] has moved to position `hole`. */
  ghost predicate Sinking(f0: seq<int>, f: seq<int>, i: int, hole: int, v: int, step: int) {
    && 0 <= i <= hole < |f0| == |f|
    && SameItems(f0, f[hole := v])
    && (forall x :: 0 <= x < |f| && !(i <= x < hole) ==> f[x] == f0[x])
    && (step == 1 ==> forall x :: i <= x < hole ==> f[x] == f0[x + 1])
  }

  lemma SinkingStep(f0: seq<int>, f: seq<int>, i: int, hole: int, k: int, v: int, step: int)
    requires Sinking(f0, f, i, hole, v, step) && step >= 1 && k == hole + step < |f|
    ensures Sinking(f0, f[hole := f[k]], i, k, v, step)
  {
    MoveHole(f, v, hole, k);
  }

  /** The outcome of a round: f0[i] was inserted, and with step 1 exactly below the first class not less than its own. */
  ghost predicate Sunk(f0: seq<int>, f: seq<int>, e: seq<int>, i: int, j: int, hi: int, step: int)
    requires Keyed(f0, |e|, 0, i, hi + 1)
  {
    && Rearranged(f0, f, i, hi + 1)
    && (step == 1 ==>
      && 0 <= i < j <= hi + 1
      && Slid(f0, f, i, j, f0[i])
      && (forall x :: i < x < j ==> e[f0[x]] < e[f0[i]])
      && (j <= hi ==> e[f0[i]] <= e[f0[j]]))
  }

  lemma SinkingDone(f0: seq<int>, f: seq<int>, e: seq<int>, i: int, hole: int, k: int, step: int, hi: int)
    requires Keyed(f0, |e|, 0, i, hi + 1) && i <= hole <= hi < |f0| && k == hole + step && step >= 1
    requires Sinking(f0, f, i, hole, f0[i], step)
    requires step == 1 ==> forall x :: i < x < k ==> e[f0[x]] < e[f0[i]]
    requires k <= hi ==> e[f0[i]] <= e[f0[k]]
    ensures Sunk(f0, f[hole := f0[i]], e, i, k, hi, step)
  {
  }

  /** One round of either loop of fallbackSimpleSort: fmap[i] moves up in steps of `step`. */
  method Sink(fmap: array<int>, eclass: array<int>, i: int, hi: int, step: int) returns (ghost j: int)
    requires fmap != eclass && 0 <= i <= hi < fmap.Length && step >= 1
    requires Keyed(fmap[..], eclass.Length, 0, i, hi + 1)
    modifies fmap
    ensures Sunk(old(fmap[..]), fmap[..], old(eclass[..]), i, j, hi, step)
  {
    var tmp := fmap[i];
    var ecTmp := eclass[tmp];
    var k := i + step;
    ghost var f0, e := fmap[..], eclass[..];
    ghost var f, hole := f0, i;
    assert f[hole := tmp] == f0;
    while k <= hi && ecTmp > eclass[fmap[k]]
      invariant hole == k - step && i <= hole <= hi
      invariant fmap[..] == f && Sinking(f0, f, i, hole, tmp, step)
      invariant step == 1 ==> forall x :: i < x < k ==> e[f0[x]] < ecTmp
    {
      assert f[k] == f0[k];
      SinkingStep(f0, f, i, hole, k, tmp, step);
      fmap[k - step] := fmap[k];
      f := f[hole := f[k]];
      hole := k;
      k := k + step;
    }
    SinkingDone(f0, f, e, i, hole, k, step, hi);
    fmap[k - step] := tmp;
    assert fmap[..] == f[hole := tmp];
    j := k;
  }

  method SimpleSort(fmap: array<int>, eclass: array<int>, lo: int, hi: int)
    requires fmap != eclass && 0 <= lo <= hi + 1 <= fmap.Length
    requires Keyed(fmap[..], eclass.Length, 0, lo, hi + 1)
    modifies fmap
    ensures Rearranged(old(fmap[..]), fmap[..], lo, hi + 1)
    ensures Keyed(fmap[..], eclass.Length, 0, lo, hi + 1)
    ensures Ordered(fmap[..], eclass[..], lo, hi + 1)
  {
    if lo == hi { return; }
    ghost var f0 := fmap[..];
    ghost var e := eclass[..];
    if hi - lo > 3 {
      var i := hi - 4;
      while i >= lo
        invariant lo - 1 <= i <= hi - 4
        invariant Rearranged(f0, fmap[..], lo, hi + 1)
      {
        KeyedRearranged(f0, fmap[..], |e|, 0, lo, hi + 1);
        ghost var j := Sink(fmap, eclass, i, hi, 4);
        i := i - 1;
      }
    }
    KeyedRearranged(f0, fmap[..], |e|, 0, lo, hi + 1);
    var i := hi - 1;
    while i >= lo
      invariant lo - 1 <= i < hi || (i == hi - 1 && lo == hi + 1)
      invariant eclass[..] == e
      invariant Rearranged(f0, fmap[..], lo, hi + 1) && Keyed(fmap[..], |e|, 0, lo, hi + 1)
      invariant lo <= hi ==> Ordered(fmap[..], e, i + 1, hi + 1)
    {
      ghost var f1 := fmap[..];
      ghost var j := Sink(fmap, eclass, i, hi, 1);
      KeyedRearranged(f0, fmap[..], |e|, 0, lo, hi + 1);
      SlidOrdered(f1, fmap[..], e, i, j, hi);
      i := i - 1;
    }
  }

  // ----- the stack of pending segments -----

  /** Some pending segment covers both a and b. */
  ghost predicate Together(st: seq<(int, int)>, a: int, b: int) {
    exists k :: 0 <= k < |st| && st[k].0 <= a && b <= st[k].1
  }

  /** What is still out of order in [lo, hi] is inside one of the pending segments. */
  ghost predicate Pending(st: seq<(int, int)>, f: seq<int>, e: seq<int>, lo: int, hi: int)
    requires Keyed(f, |e|, 0, lo, hi + 1)
  {
    forall a, b :: lo <= a < b <= hi ==> e[f[a]] <= e[f[b]] || Together(st, a, b)
  }

  ghost predicate Disjoint(st: seq<(int, int)>) {
    forall j, k :: 0 <= j < k < |st| ==> st[j].1 < st[k].0 || st[k].1 < st[j].0
  }

  /** n halved k times. */
  ghost function Halved(n: nat, k: nat): nat {
    if k == 0 then n else Halved(n, k - 1) / 2
  }

  lemma {:induction false} HalvedBound(n: nat, k: nat, p: nat)
    requires n < p * Pow2(k)
    ensures Halved(n, k) < p
    decreases k
  {
    if k > 0 {
      assert p * Pow2(k) == (p * 2) * Pow2(k - 1);
      HalvedBound(n, k - 1, p * 2);
    }
  }

  /** Segments lie within [lo, hi]; the k-th from the bottom has at most (hi - lo + 1) / 2^k entries. */
  ghost predicate Stacked(st: seq<(int, int)>, lo: int, hi: int)
    requires lo <= hi + 1
  {
    && Disjoint(st)
    && (forall k :: 0 <= k < |st| ==> lo <= st[k].0 <= st[k].1 + 1 <= hi + 1)
    && (forall k :: 0 <= k < |st| ==> st[k].1 - st[k].0 + 1 <= Halved(hi - lo + 1, k))
  }

  /** Decreases with every segment taken off the stack. */
  ghost function Work(st: seq<(int, int)>): int {
    if st == [] then 0
    else Work(st[..|st| - 1]) + 2 * (st[|st| - 1].1 - st[|st| - 1].0 + 1) + 1
  }

  lemma {:induction false} WorkBound(st: seq<(int, int)>, lo: int, hi: int)
    requires forall k :: 0 <= k < |st| ==> lo <= st[k].0 <= st[k].1 + 1 <= hi + 1
    ensures Work(st) >= 0
  {
    if st != [] { WorkBound(st[..|st| - 1], lo, hi); }
  }

  lemma WorkPush(st: seq<(int, int)>, s: (int, int))
    ensures Work(st + [s]) == Work(st) + 2 * (s.1 - s.0 + 1) + 1
  {
    assert (st + [s])[..|st|] == st;
  }

  /** Replacing the top segment by the segments its own rearrangement leaves pending. */
  lemma PendingReplace(st: seq<(int, int)>, top: (int, int), rest: seq<(int, int)>,
                       f: seq<int>, g: seq<int>, e: seq<int>, lo: int, hi: int)
    requires 0 <= lo <= top.0 <= top.1 + 1 <= hi + 1 <= |f|
    requires Keyed(f, |e|, 0, lo, hi + 1) && Keyed(g, |e|, 0, lo, hi + 1)
    requires Disjoint(st + [top]) && Pending(st + [top], f, e, lo, hi)
    requires Rearranged(f, g, top.0, top.1 + 1)
    requires forall a, b :: top.0 <= a < b <= top.1 ==> e[g[a]] <= e[g[b]] || Together(rest, a, b)
    ensures Pending(st + rest, g, e, lo, hi)
  {
    forall a, b | lo <= a < b <= hi ensures e[g[a]] <= e[g[b]] || Together(st + rest, a, b) {
      if Together(st, a, b) {
        var k :| 0 <= k < |st| && st[k].0 <= a && b <= st[k].1;
        assert (st + rest)[k] == st[k];
      } else if top.0 <= a && b <= top.1 {
        if Together(rest, a, b) {
          var k :| 0 <= k < |rest| && rest[k].0 <= a && b <= rest[k].1;
          assert (st + rest)[|st| + k] == rest[k];
        }
      } else {
        var a', b' := a, b;
        if top.0 <= a <= top.1 { a' := RearrangedFrom(f, g, top.0, top.1 + 1, a); }
        if top.0 <= b <= top.1 { b' := RearrangedFrom(f, g, top.0, top.1 + 1, b); }
        assert g[a] == f[a'] && g[b] == f[b'] && a' < b';
        var s0 := st + [top];
        assert s0[|st|] == top;
        forall k | 0 <= k < |s0| ensures !(s0[k].0 <= a' && b' <= s0[k].1) {
          if k < |st| { assert s0[k] == st[k] && !(st[k].0 <= a && b <= st[k].1); }
        }
      }
    }
  }

  /** A partition leaves only the two outer parts pending. */
  lemma PartedPending(g: seq<int>, e: seq<int>, med: int, lo: int, n: int, m: int, hi: int, rest: seq<(int, int)>)
    requires Parted(g, e, 0, med, lo, n, m, hi)
    requires |rest| == 2 && (rest == [(lo, n), (m, hi)] || rest == [(m, hi), (lo, n)])
    ensures forall a, b :: lo <= a < b <= hi ==> e[g[a]] <= e[g[b]] || Together(rest, a, b)
  {
    forall a, b | lo <= a < b <= hi ensures e[g[a]] <= e[g[b]] || Together(rest, a, b) {
      assert b <= n ==> Together(rest, a, b) by {
        var k := if rest[0] == (lo, n) then 0 else 1;
        assert rest[k] == (lo, n);
      }
      assert a >= m ==> Together(rest, a, b) by {
        var k := if rest[0] == (m, hi) then 0 else 1;
        assert rest[k] == (m, hi);
      }
    }
  }

  lemma DisjointPush(st: seq<(int, int)>, top: (int, int), p: (int, int), q: (int, int))
    requires Disjoint(st + [top])
    requires top.0 <= p.0 && p.1 <= top.1 && top.0 <= q.0 && q.1 <= top.1
    requires p.1 < q.0 || q.1 < p.0
    ensures Disjoint(st + [p, q])
  {
    var s0, s1 := st + [top], st + [p, q];
    assert s0[|st|] == top;
    forall j, k | 0 <= j < k < |s1| ensures s1[j].1 < s1[k].0 || s1[k].1 < s1[j].0 {
      if j < |st| {
        assert s1[j] == s0[j];
        if k < |st| { assert s1[k] == s0[k]; }
      }
    }
  }

  /** Pushing the larger part first keeps the halving bound: this is why the stack stays small. */
  lemma StackedPush(st: seq<(int, int)>, top: (int, int), p: (int, int), q: (int, int), lo: int, hi: int)
    requires lo <= hi + 1 && Stacked(st + [top], lo, hi)
    requires top.0 <= p.0 <= p.1 + 1 <= top.1 + 1 && top.0 <= q.0 <= q.1 + 1 <= top.1 + 1
    requires p.1 < q.0 || q.1 < p.0
    requires q.1 - q.0 <= p.1 - p.0 && (p.1 - p.0 + 1) + (q.1 - q.0 + 1) <= top.1 - top.0
    ensures Stacked(st + [p, q], lo, hi)
    ensures 0 <= Work(st + [p, q]) < Work(st + [top])
  {
    var s0, s1 := st + [top], st + [p, q];
    assert s0[|st|] == top;
    assert Halved(hi - lo + 1, |st| + 1) == Halved(hi - lo + 1, |st|) / 2;
    forall k | 0 <= k < |s1|
      ensures lo <= s1[k].0 <= s1[k].1 + 1 <= hi + 1 && s1[k].1 - s1[k].0 + 1 <= Halved(hi - lo + 1, k)
    {
      if k < |st| { assert s1[k] == s0[k]; } else { assert s1[k] == if k == |st| then p else q; }
    }
    DisjointPush(st, top, p, q);
    WorkPush(st, top);
    WorkPush(st, p);
    WorkPush(st + [p], q);
    assert st + [p] + [q] == s1;
    WorkBound(s1, lo, hi);
  }

  lemma StackedPop(st: seq<(int, int)>, top: (int, int), lo: int, hi: int)
    requires lo <= hi + 1 && Stacked(st + [top], lo, hi)
    ensures Stacked(st, lo, hi) && Disjoint(st + [top]) && 0 <= Work(st) < Work(st + [top])
    ensures lo <= top.0 <= top.1 + 1 <= hi + 1 && top.1 - top.0 + 1 <= Halved(hi - lo + 1, |st|)
  {
    var s0 := st + [top];
    assert s0[|st|] == top;
    forall k | 0 <= k < |st| ensures st[k] == s0[k] {}
    WorkPush(st, top);
    WorkBound(st, lo, hi);
  }

  /** The arrays stackLo and stackHi up to `sp`. */
  ghost predicate Holds(stackLo: seq<int>, stackHi: seq<int>, sp: int, st: seq<(int, int)>) {
    && sp == |st| <= |stackLo| == |stackHi|
    && forall k :: 0 <= k < sp ==> stackLo[k] == st[k].0 && stackHi[k] == st[k].1
  }

  /** AssertH 1004 never fires: only segments of more than ten entries are split, and Halved makes those shallow. */
  lemma ShallowStack(n: nat, k: nat)
    requires n < 0x8000_0000 && Halved(n, k) > SMALL_THRESH
    ensures k < 28
  {
    if k >= 28 {
      Pow2Add(14, 14);
      Pow2Add(7, 7);
      assert Pow2(7) == 128;
      HalvedMonotone(n, 28, k);
      HalvedBound(n, 28, 8);
    }
  }

  lemma {:induction false} HalvedMonotone(n: nat, j: nat, k: nat)
    requires j <= k
    ensures Halved(n, k) <= Halved(n, j)
  {
    if j < k { HalvedMonotone(n, j, k - 1); }
  }

  /** One pass of the main loop over the segment [lo, hi]: sort it, or split it around `med`. */
  method Process(fmap: array<int>, eclass: array<int>, lo: int, hi: int, r0: int)
    returns (r: int, split: bool, n: int, m: int, ghost rest: seq<(int, int)>)
    requires fmap != eclass && 0 <= lo <= hi + 1 <= fmap.Length
    requires Keyed(fmap[..], eclass.Length, 0, lo, hi + 1)
    modifies fmap
    ensures Rearranged(old(fmap[..]), fmap[..], lo, hi + 1) && Keyed(fmap[..], eclass.Length, 0, lo, hi + 1)
    ensures !split ==> rest == []
    ensures split ==>
      && hi - lo >= SMALL_THRESH
      && lo <= n + 1 && n + 1 < m <= hi + 1
      && rest == if n - lo > hi - m then [(lo, n), (m, hi)] else [(m, hi), (lo, n)]
    ensures forall a, b :: lo <= a < b <= hi ==> eclass[fmap[a]] <= eclass[fmap[b]] || Together(rest, a, b)
  {
    ghost var f0, e := fmap[..], eclass[..];
    r, split, n, m, rest := r0, false, 0, 0, [];
    if hi - lo < SMALL_THRESH {
      SimpleSort(fmap, eclass, lo, hi);
      return;
    }
    r := ((r * 7621) + 1) % 32768;
    var r3 := r % 3;
    var med :=
      if r3 == 0 then eclass[fmap[lo]]
      else if r3 == 1 then eclass[fmap[(lo + hi) / 2]]
      else eclass[fmap[hi]];
    ghost var p := if r3 == 0 then lo else if r3 == 1 then (lo + hi) / 2 else hi;
    var allEqual;
    allEqual, n, m := Split(fmap, eclass, 0, med, lo, hi);
    PartedMedian(f0, fmap[..], e, med, lo, n, m, hi, p);
    if !allEqual {
      split := true;
      rest := if n - lo > hi - m then [(lo, n), (m, hi)] else [(m, hi), (lo, n)];
      PartedPending(fmap[..], e, med, lo, n, m, hi, rest);
    }
  }

  /** The median itself is one of the keys, so both parts are smaller than the segment. */
  lemma PartedMedian(f: seq<int>, g: seq<int>, e: seq<int>, med: int, lo: int, n: int, m: int, hi: int, p: int)
    requires Keyed(f, |e|, 0, lo, hi + 1) && Rearranged(f, g, lo, hi + 1)
    requires lo <= p <= hi && e[f[p]] == med && Parted(g, e, 0, med, lo, n, m, hi)
    ensures n + 1 < m
  {
    RearrangedSymmetric(f, g, lo, hi + 1);
    var q := RearrangedFrom(g, f, lo, hi + 1, p);
    assert e[g[q] + 0] == med;
  }

  /** The invariant of the main loop. */
  ghost predicate Sorting(f0: seq<int>, f: seq<int>, e: seq<int>, st: seq<(int, int)>, lo: int, hi: int) {
    && 0 <= lo <= hi < |f| && hi < 0x7fff_ffff
    && Rearranged(f0, f, lo, hi + 1)
    && Keyed(f, |e|, 0, lo, hi + 1)
    && Stacked(st, lo, hi)
    && Pending(st, f, e, lo, hi)
  }

  lemma SortingStart(f: seq<int>, e: seq<int>, lo: int, hi: int)
    requires 0 <= lo <= hi < |f| && hi < 0x7fff_ffff && Keyed(f, |e|, 0, lo, hi + 1)
    ensures Sorting(f, f, e, [(lo, hi)], lo, hi)
  {
    var st := [(lo, hi)];
    forall a, b | lo <= a < b <= hi ensures Together(st, a, b) {
      assert st[0].0 <= a && b <= st[0].1;
    }
  }

  lemma SortingTop(f0: seq<int>, f: seq<int>, e: seq<int>, below: seq<(int, int)>, top: (int, int), lo: int, hi: int)
    requires Sorting(f0, f, e, below + [top], lo, hi)
    ensures lo <= top.0 <= top.1 + 1 <= hi + 1 && Keyed(f, |e|, 0, top.0, top.1 + 1)
    ensures 0 <= Work(below) < Work(below + [top])
  {
    StackedPop(below, top, lo, hi);
    KeyedNarrow(f, |e|, lo, hi + 1, top.0, top.1 + 1);
  }

  lemma SortingPass(f0: seq<int>, f: seq<int>, g: seq<int>, e: seq<int>,
                    below: seq<(int, int)>, top: (int, int), rest: seq<(int, int)>, lo: int, hi: int)
    requires Sorting(f0, f, e, below + [top], lo, hi)
    requires Rearranged(f, g, top.0, top.1 + 1) && Keyed(g, |e|, 0, top.0, top.1 + 1)
    requires forall a, b :: top.0 <= a < b <= top.1 ==> e[g[a]] <= e[g[b]] || Together(rest, a, b)
    requires Stacked(below + rest, lo, hi)
    ensures Sorting(f0, g, e, below + rest, lo, hi)
  {
    StackedPop(below, top, lo, hi);
    KeyedRearranged(f, g, |e|, 0, lo, hi + 1);
    PendingReplace(below, top, rest, f, g, e, lo, hi);
  }

  lemma SortingEnd(f0: seq<int>, f: seq<int>, e: seq<int>, st: seq<(int, int)>, lo: int, hi: int)
    requires Sorting(f0, f, e, st, lo, hi) && st == []
    ensures Rearranged(f0, f, lo, hi + 1) && Keyed(f, |e|, 0, lo, hi + 1) && Ordered(f, e, lo, hi + 1)
  {
    forall a, b | lo <= a < b <= hi ensures e[f[a]] <= e[f[b]] {
      assert !Together(st, a, b);
    }
  }

  lemma HoldsStart(stackLo: seq<int>, stackHi: seq<int>, s: (int, int))
    requires |stackLo| == |stackHi| > 0 && stackLo[0] == s.0 && stackHi[0] == s.1
    ensures Holds(stackLo, stackHi, 1, [s])
    ensures s.0 <= s.1 + 1 ==> Work([s]) >= 0
  {
    WorkPush([], s);
    assert [] + [s] == [s];
  }

  lemma HoldsTop(stackLo: seq<int>, stackHi: seq<int>, sp: int, st: seq<(int, int)>)
    requires Holds(stackLo, stackHi, sp, st) && sp > 0
    ensures sp == |st| <= |stackLo| == |stackHi| && st[sp - 1] == (stackLo[sp - 1], stackHi[sp - 1])
    ensures Holds(stackLo, stackHi, sp - 1, st[..sp - 1])
  {
  }

  /** The two pushes after a split. */
  method PushParts(stackLo: array<int>, stackHi: array<int>, sp: int, lo: int, n: int, m: int, hi: int,
                   ghost below: seq<(int, int)>, ghost rest: seq<(int, int)>)
    requires stackLo != stackHi && Holds(stackLo[..], stackHi[..], sp, below) && sp + 2 <= stackLo.Length
    requires rest == if n - lo > hi - m then [(lo, n), (m, hi)] else [(m, hi), (lo, n)]
    modifies stackLo, stackHi
    ensures Holds(stackLo[..], stackHi[..], sp + 2, below + rest)
  {
    if n - lo > hi - m {
      stackLo[sp], stackHi[sp] := lo, n;
      stackLo[sp + 1], stackHi[sp + 1] := m, hi;
    } else {
      stackLo[sp], stackHi[sp] := m, hi;
      stackLo[sp + 1], stackHi[sp + 1] := lo, n;
    }
  }

  method QSort3(fmap: array<int>, eclass: array<int>, loSt: int, hiSt: int)
    requires fmap != eclass && 0 <= loSt <= hiSt < fmap.Length <= 0x7fff_ffff
    requires Keyed(fmap[..], eclass.Length, 0, loSt, hiSt + 1)
    modifies fmap
    ensures Rearranged(old(fmap[..]), fmap[..], loSt, hiSt + 1)
    ensures Keyed(fmap[..], eclass.Length, 0, loSt, hiSt + 1)
    ensures Ordered(fmap[..], eclass[..], loSt, hiSt + 1)
  {
    hide Sorting, Rearranged, Stacked, Holds, Work, Together, Keyed, Ordered;
    var stackLo, stackHi := new int[STACK_SIZE], new int[STACK_SIZE];
    var r, sp := 0, 0;
    ghost var f0, e := fmap[..], eclass[..];
    ghost var st := [(loSt, hiSt)];
    stackLo[sp], stackHi[sp] := loSt, hiSt;
    sp := sp + 1;
    HoldsStart(stackLo[..], stackHi[..], (loSt, hiSt));
    SortingStart(f0, e, loSt, hiSt);
    while sp > 0
      invariant Sorting(f0, fmap[..], e, st, loSt, hiSt)
      invariant 0 <= sp <= 30 && sp == |st| && Holds(stackLo[..], stackHi[..], sp, st)
      invariant Work(st) >= 0
      decreases Work(st)
    {
      assert sp < STACK_SIZE - 1;
      HoldsTop(stackLo[..], stackHi[..], sp, st);
      sp := sp - 1;
      var lo, hi := stackLo[sp], stackHi[sp];
      ghost var f, below, top := fmap[..], st[..sp], (lo, hi);
      assert st == below + [top];
      SortingTop(f0, f, e, below, top, loSt, hiSt);
      var split, n, m; ghost var rest;
      r, split, n, m, rest := Process(fmap, eclass, lo, hi, r);
      st := below + rest;
      StackedNext(below, top, rest, split, lo, n, m, hi, f0, f, e, loSt, hiSt);
      SortingPass(f0, f, fmap[..], e, below, top, rest, loSt, hiSt);
      if split {
        PushParts(stackLo, stackHi, sp, lo, n, m, hi, below, rest);
        sp := sp + 2;
      } else {
        assert st == below;
      }
    }
    SortingEnd(f0, fmap[..], e, st, loSt, hiSt);
  }

  lemma StackedNext(below: seq<(int, int)>, top: (int, int), rest: seq<(int, int)>, split: bool,
                    lo: int, n: int, m: int, hi: int,
                    f0: seq<int>, f: seq<int>, e: seq<int>, loSt: int, hiSt: int)
    requires Sorting(f0, f, e, below + [top], loSt, hiSt) && top == (lo, hi)
    requires !split ==> rest == []
    requires split ==>
      && hi - lo >= SMALL_THRESH
      && lo <= n + 1 && n + 1 < m <= hi + 1
      && rest == if n - lo > hi - m then [(lo, n), (m, hi)] else [(m, hi), (lo, n)]
    ensures Stacked(below + rest, loSt, hiSt)
    ensures 0 <= Work(below + rest) < Work(below + [top])
    ensures split ==> |below| < 28
  {
    StackedPop(below, top, loSt, hiSt);
    if split {
      ShallowStack(hiSt - loSt + 1, |below|);
      StackedPush(below, top, rest[0], rest[1], loSt, hiSt);
      assert rest == [rest[0], rest[1]];
    } else {
      assert below + rest == below;
    }
  }

  lemma KeyedNarrow(f: seq<int>, size: int, lo: int, hi: int, lo': int, hi': int)
    requires Keyed(f, size, 0, lo, hi) && lo <= lo' && hi' <= hi
    ensures Keyed(f, size, 0, lo', hi')
  {
  }
}
