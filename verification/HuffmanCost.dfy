/**
  Huffman's theorem for the trees of BZ2_hbMakeCodeLengths (dep/bzip2/huffman.c, lines 97-121):
  joining the two lightest roots again and again gives code lengths whose cost is least among all
  tables that satisfy Kraft's inequality. Of equally light roots the source joins the shallower
  ones; so among the tables of least cost it finds one whose longest code is shortest.
*/
module HuffmanCost {
  import opened Common
  import opened HuffmanTree

  // ----- sums over some of the nodes -----

  /** The cost of the nodes in the mask: weight times length. */
  ghost function CostIn(mask: seq<bool>, w: seq<int>, l: seq<int>): int
    requires |mask| == |w| == |l|
  {
    if mask == [] then 0
    else
      var k := |mask| - 1;
      CostIn(mask[..k], w[..k], l[..k]) + if mask[k] then w[k] * l[k] else 0
  }

  ghost predicate Bounded(mask: seq<bool>, l: seq<int>, d: int) {
    |mask| == |l| && forall i :: 0 <= i < |mask| && mask[i] ==> 0 <= l[i] <= d
  }

  /** Kraft's sum over the nodes in the mask, scaled by 2^d. */
  ghost function KraftIn(mask: seq<bool>, l: seq<int>, d: nat): int
    requires Bounded(mask, l, d)
  {
    if mask == [] then 0
    else
      var k := |mask| - 1;
      KraftIn(mask[..k], l[..k], d) + if mask[k] then Pow2(d - l[k]) else 0
  }

  /** Lengths for the nodes in the mask that satisfy Kraft's inequality. */
  ghost predicate Feasible(mask: seq<bool>, l: seq<int>, d: nat) {
    Bounded(mask, l, d) && KraftIn(mask, l, d) <= Pow2(d)
  }

  lemma {:induction false} CostSet(mask: seq<bool>, w: seq<int>, l: seq<int>, x: int, v: int)
    requires |mask| == |w| == |l| && 0 <= x < |l| && mask[x]
    ensures CostIn(mask, w, l[x := v]) == CostIn(mask, w, l) + w[x] * v - w[x] * l[x]
  {
    var k := |l| - 1;
    if x < k {
      assert l[x := v][..k] == l[..k][x := v];
      CostSet(mask[..k], w[..k], l[..k], x, v);
    } else {
      assert l[x := v][..k] == l[..k];
    }
  }

  lemma {:induction false} KraftSet(mask: seq<bool>, l: seq<int>, d: nat, x: int, v: int)
    requires Bounded(mask, l, d) && 0 <= x < |l| && mask[x] && 0 <= v <= d
    ensures Bounded(mask, l[x := v], d)
    ensures KraftIn(mask, l[x := v], d) == KraftIn(mask, l, d) + Pow2(d - v) - Pow2(d - l[x])
  {
    hide Pow2;
    var k := |l| - 1;
    if x < k {
      assert l[x := v][..k] == l[..k][x := v];
      KraftSet(mask[..k], l[..k], d, x, v);
    } else {
      assert l[x := v][..k] == l[..k];
    }
  }

  lemma {:induction false} CostDrop(mask: seq<bool>, w: seq<int>, l: seq<int>, x: int)
    requires |mask| == |w| == |l| && 0 <= x < |l| && mask[x]
    ensures CostIn(mask[x := false], w, l) == CostIn(mask, w, l) - w[x] * l[x]
  {
    var k := |l| - 1;
    if x < k {
      assert mask[x := false][..k] == mask[..k][x := false];
      CostDrop(mask[..k], w[..k], l[..k], x);
    } else {
      assert mask[x := false][..k] == mask[..k];
    }
  }

  lemma {:induction false} KraftDrop(mask: seq<bool>, l: seq<int>, d: nat, x: int)
    requires Bounded(mask, l, d) && 0 <= x < |l| && mask[x]
    ensures Bounded(mask[x := false], l, d)
    ensures KraftIn(mask[x := false], l, d) == KraftIn(mask, l, d) - Pow2(d - l[x])
  {
    hide Pow2;
    var k := |l| - 1;
    if x < k {
      assert mask[x := false][..k] == mask[..k][x := false];
      KraftDrop(mask[..k], l[..k], d, x);
    } else {
      assert mask[x := false][..k] == mask[..k];
    }
  }

  lemma {:induction false} KraftSome(mask: seq<bool>, l: seq<int>, d: nat)
    requires Bounded(mask, l, d)
    ensures KraftIn(mask, l, d) >= 0
  {
    if mask != [] {
      var k := |mask| - 1;
      KraftSome(mask[..k], l[..k], d);
    }
  }

  /** Where no length is d, the scale may be halved. */
  lemma {:induction false} KraftHalf(mask: seq<bool>, l: seq<int>, d: nat)
    requires d > 0 && Bounded(mask, l, d - 1)
    ensures Bounded(mask, l, d) && KraftIn(mask, l, d) == 2 * KraftIn(mask, l, d - 1)
  {
    if mask != [] {
      var k := |mask| - 1;
      KraftHalf(mask[..k], l[..k], d);
    }
  }

  /** Two nodes have their share. */
  lemma KraftTwo(mask: seq<bool>, l: seq<int>, d: nat, a: int, b: int)
    requires Bounded(mask, l, d) && 0 <= a < |l| && 0 <= b < |l| && a != b && mask[a] && mask[b]
    ensures KraftIn(mask, l, d) >= Pow2(d - l[a]) + Pow2(d - l[b])
  {
    hide Pow2;
    KraftDrop(mask, l, d, a);
    KraftDrop(mask[a := false], l, d, b);
    KraftSome(mask[a := false][b := false], l, d);
  }

  // ----- exchanging lengths -----

  /** Below each node there are dep more levels, and none is deeper than h. */
  ghost predicate Within(mask: seq<bool>, l: seq<int>, dep: seq<int>, h: int) {
    |mask| == |l| == |dep| && forall i :: 0 <= i < |mask| && mask[i] ==> l[i] + dep[i] <= h
  }

  /** A node goes before another: lighter, or as light and no deeper. */
  predicate Before(w: seq<int>, dep: seq<int>, a: int, z: int) {
    0 <= a < |w| == |dep| && 0 <= z < |w| && (w[a] < w[z] || (w[a] == w[z] && dep[a] <= dep[z]))
  }

  /** r costs no more than l, and where it costs as much it is not deeper. */
  ghost predicate NoWorse(mask: seq<bool>, w: seq<int>, dep: seq<int>, r: seq<int>, l: seq<int>) {
    && |mask| == |w| == |dep| == |r| == |l| && CostIn(mask, w, r) <= CostIn(mask, w, l)
    && (CostIn(mask, w, r) == CostIn(mask, w, l) ==> forall h :: Within(mask, l, dep, h) ==> Within(mask, r, dep, h))
  }

  lemma NoWorseChain(mask: seq<bool>, w: seq<int>, dep: seq<int>, q: seq<int>, r: seq<int>, l: seq<int>)
    requires NoWorse(mask, w, dep, q, r) && NoWorse(mask, w, dep, r, l)
    ensures NoWorse(mask, w, dep, q, l)
  {
    hide CostIn, Within;
  }

  /** Giving the longer of two lengths to the node that goes before is no worse. */
  lemma Exchange(mask: seq<bool>, w: seq<int>, dep: seq<int>, l: seq<int>, d: nat, a: int, z: int) returns (r: seq<int>)
    requires |w| == |l| && Feasible(mask, l, d) && 0 <= a < |l| && 0 <= z < |l| && mask[a] && mask[z]
    requires Before(w, dep, a, z) && l[a] <= l[z]
    ensures r == l[a := l[z]][z := l[a]] && Feasible(mask, r, d) && NoWorse(mask, w, dep, r, l)
  {
    hide Pow2, KraftIn, CostIn;
    var s := l[a := l[z]];
    KraftSet(mask, l, d, a, l[z]);
    CostSet(mask, w, l, a, l[z]);
    KraftSet(mask, s, d, z, l[a]);
    CostSet(mask, w, s, z, l[a]);
    r := s[z := l[a]];
    Crosswise(w[a], w[z], l[a], l[z]);
  }

  lemma Crosswise(x: int, y: int, p: int, q: int)
    requires x <= y && p <= q
    ensures x * q - x * p + y * p - y * q <= 0
    ensures x < y && p < q ==> x * q - x * p + y * p - y * q < 0
  {
    assert x * q - x * p + y * p - y * q == (x - y) * (q - p);
    if x < y && p < q { StrictProduct(y - x, q - p); }
  }

  lemma StrictProduct(a: int, b: int)
    requires a > 0 && b > 0
    ensures a * b > 0
  {
  }

  /** Both nodes go before any other in the mask. */
  ghost predicate Lightest(mask: seq<bool>, w: seq<int>, dep: seq<int>, a: int, b: int) {
    && |mask| == |w| == |dep| && 0 <= a < |mask| && 0 <= b < |mask| && a != b && mask[a] && mask[b]
    && forall i :: 0 <= i < |mask| && mask[i] && i != a && i != b ==> Before(w, dep, a, i) && Before(w, dep, b, i)
  }

  /** With two nodes of length d, the two lightest can have it. */
  lemma LightestDeep(mask: seq<bool>, w: seq<int>, dep: seq<int>, l: seq<int>, d: nat, a: int, b: int, x: int, y: int)
    returns (r: seq<int>)
    requires Lightest(mask, w, dep, a, b) && |w| == |l| && Feasible(mask, l, d)
    requires 0 <= x < |l| && 0 <= y < |l| && x != y && mask[x] && mask[y] && l[x] == l[y] == d
    ensures |r| == |l| && Feasible(mask, r, d) && NoWorse(mask, w, dep, r, l) && r[a] == r[b] == d
  {
    hide KraftIn, CostIn, NoWorse, Before, Within;
    r := l;
    Unchanged(mask, w, dep, l);
    var z, other := if x != b then x else y, if x != b then y else x;
    if l[a] != d {
      r := Exchange(mask, w, dep, l, d, a, z);
    } else if z != a {
      other := z;
    }
    if r[b] != d {
      var q := Exchange(mask, w, dep, r, d, b, other);
      NoWorseChain(mask, w, dep, q, r, l);
      r := q;
    }
  }

  lemma Unchanged(mask: seq<bool>, w: seq<int>, dep: seq<int>, l: seq<int>)
    requires |mask| == |w| == |dep| == |l|
    ensures NoWorse(mask, w, dep, l, l)
  {
  }

  /** A feasible table can be changed so that the two lightest nodes are the deepest, at no cost. */
  lemma {:induction false} Deepen(mask: seq<bool>, w: seq<int>, dep: seq<int>, l: seq<int>, d: nat, a: int, b: int)
    returns (r: seq<int>, e: nat)
    requires Lightest(mask, w, dep, a, b) && |w| == |l| && Feasible(mask, l, d) && forall i :: 0 <= i < |w| && mask[i] ==> w[i] >= 0
    ensures |r| == |l| && e > 0 && Feasible(mask, r, e) && NoWorse(mask, w, dep, r, l) && r[a] == r[b] == e
    decreases d
  {
    hide KraftIn, CostIn, NoWorse, Before, Within;
    assert d == 0 ==> l[a] == l[b] == d;
    if x, y :| 0 <= x < |l| && 0 <= y < |l| && x != y && mask[x] && mask[y] && l[x] == l[y] == d {
      r := LightestDeep(mask, w, dep, l, d, a, b, x, y);
      e := d;
      KraftTwo(mask, r, d, a, b);
      assert Pow2(0) == 1;
    } else if x :| 0 <= x < |l| && mask[x] && l[x] == d {
      var s := l[x := d - 1];
      KraftSet(mask, l, d, x, d - 1);
      KraftHalf(mask, s, d);
      assert Pow2(0) == 1 && Pow2(1) == 2 && Pow2(d) == 2 * Pow2(d - 1);
      Shortened(mask, w, dep, l, x, d);
      r, e := Deepen(mask, w, dep, s, d - 1, a, b);
      NoWorseChain(mask, w, dep, r, s, l);
    } else {
      KraftHalf(mask, l, d);
      assert Pow2(d) == 2 * Pow2(d - 1);
      r, e := Deepen(mask, w, dep, l, d - 1, a, b);
    }
  }

  lemma Shortened(mask: seq<bool>, w: seq<int>, dep: seq<int>, l: seq<int>, x: int, d: nat)
    requires |mask| == |w| == |dep| == |l| && 0 <= x < |l| && mask[x] && w[x] >= 0 && l[x] == d
    ensures NoWorse(mask, w, dep, l[x := d - 1], l)
  {
    hide CostIn;
    CostSet(mask, w, l, x, d - 1);
    Less(w[x], d);
  }

  lemma Less(w: int, d: int)
    requires w >= 0
    ensures w * (d - 1) - w * d <= 0
  {
  }

  /** Joining the two lightest nodes: what a table costs the many, a table costs the fewer, less the weight joined. */
  lemma Join(mask: seq<bool>, w: seq<int>, dep: seq<int>, l: seq<int>, d: nat, a: int, b: int, m: int) returns (r: seq<int>, e: nat)
    requires Lightest(mask, w, dep, a, b) && |w| == |l| && Feasible(mask, l, d) && forall i :: 0 <= i < |w| && mask[i] ==> w[i] >= 0
    requires 0 <= m < |w| && !mask[m] && w[m] == w[a] + w[b] && dep[m] == 1 + Max(dep[a], dep[b])
    ensures |r| == |l| && Feasible(mask[a := false][b := false][m := true], r, e)
    ensures CostIn(mask[a := false][b := false][m := true], w, r) + w[m] <= CostIn(mask, w, l)
    ensures CostIn(mask[a := false][b := false][m := true], w, r) + w[m] == CostIn(mask, w, l) ==>
              forall h :: Within(mask, l, dep, h) ==> Within(mask[a := false][b := false][m := true], r, dep, h)
  {
    hide KraftIn, CostIn, Before;
    var s, f := Deepen(mask, w, dep, l, d, a, b);
    e := f;
    r := s[m := e - 1];
    var less, more := mask[a := false][b := false], mask[a := false][b := false][m := true];
    Outside(mask, w, s, e, m, e - 1);
    KraftDrop(mask, r, e, a);
    KraftDrop(mask[a := false], r, e, b);
    CostDrop(mask, w, r, a);
    CostDrop(mask[a := false], w, r, b);
    assert more[m := false] == less;
    KraftDrop(more, r, e, m);
    CostDrop(more, w, r, m);
    assert Pow2(0) == 1 && Pow2(1) == 2;
    Sums(w[a], w[b], e);
  }

  lemma Sums(x: int, y: int, e: int)
    ensures (x + y) * (e - 1) == x * e + y * e - (x + y)
  {
  }

  /** What is not in the mask does not count. */
  lemma {:induction false} Outside(mask: seq<bool>, w: seq<int>, l: seq<int>, d: nat, m: int, v: int)
    requires |mask| == |w| && Bounded(mask, l, d) && 0 <= m < |l| && !mask[m]
    ensures Bounded(mask, l[m := v], d) && KraftIn(mask, l[m := v], d) == KraftIn(mask, l, d)
    ensures CostIn(mask, w, l[m := v]) == CostIn(mask, w, l)
  {
    hide Pow2;
    var k := |l| - 1;
    if m < k {
      assert l[m := v][..k] == l[..k][m := v];
      Outside(mask[..k], w[..k], l[..k], d, m, v);
    } else {
      assert l[m := v][..k] == l[..k];
    }
  }

  // ----- the forest -----

  /** The weights of the nodes, without the depths packed below them. */
  ghost function Weights(t: Forest): (w: seq<int>)
    ensures |w| == |t.weight| && forall k :: 0 <= k < |w| ==> w[k] == Weight(t.weight[k])
  {
    seq(|t.weight|, (k: int) requires 0 <= k < |t.weight| => Weight(t.weight[k]))
  }

  /** The depths of the nodes, from the low bytes. */
  ghost function Depths(t: Forest): (dep: seq<int>)
    ensures |dep| == |t.weight| && forall k :: 0 <= k < |dep| ==> dep[k] == Depth(t.weight[k])
  {
    seq(|t.weight|, (k: int) requires 0 <= k < |t.weight| => Depth(t.weight[k]))
  }

  /** Comparing packed words is comparing weights, and then depths. */
  lemma PackedBefore(t: Forest, a: int, z: int)
    requires 0 <= a < |t.weight| && 0 <= z < |t.weight| && t.weight[a] <= t.weight[z]
    ensures Before(Weights(t), Depths(t), a, z)
  {
  }

  /** The roots when node m had just been made. */
  ghost function RootsAt(t: Forest, m: int): (mask: seq<bool>)
    ensures |mask| == |t.parent|
    ensures forall k :: 0 <= k < |mask| ==> (mask[k] <==> 0 < k <= m && (t.parent[k] < 0 || t.parent[k] > m))
  {
    seq(|t.parent|, (k: int) requires 0 <= k < |t.parent| => 0 < k <= m && (t.parent[k] < 0 || t.parent[k] > m))
  }

  /** Node m was made of the two lightest roots there were. */
  ghost predicate Picked(t: Forest, m: int)
    requires |t.parent| == |t.weight| == |t.left| == |t.right| && 0 < m < |t.parent| && Inner(t, m)
  {
    forall k :: 0 < k < m && (t.parent[k] < 0 || t.parent[k] >= m) && k != t.left[m] && k != t.right[m] ==>
      && t.weight[t.left[m]] <= t.weight[k]
      && t.weight[t.right[m]] <= t.weight[k]
  }

  ghost predicate Greedy(t: Forest, alpha: nat) {
    WellFormed(t, alpha) && forall m :: alpha < m < |t.parent| ==> Picked(t, m)
  }

  /** Joining the two lightest roots keeps it so. */
  lemma MergeGreedy(t: Forest, alpha: nat, n1: int, n2: int, w: int)
    requires Greedy(t, alpha) && t.Root(n1) && t.Root(n2) && n1 != n2
    requires WellFormed(Merge(t, n1, n2, w), alpha)
    requires t.weight[n1] <= t.weight[n2]
    requires forall k :: t.Root(k) && k != n1 && k != n2 ==> t.weight[n2] <= t.weight[k]
    ensures Greedy(Merge(t, n1, n2, w), alpha)
  {
    var s, top := Merge(t, n1, n2, w), |t.parent|;
    forall m | alpha < m < |s.parent| ensures Picked(s, m) {
      assert Inner(s, m);
      if m < top {
        assert Inner(t, m) && Picked(t, m);
      } else {
        forall k | 0 < k < m && (s.parent[k] < 0 || s.parent[k] >= m) && k != s.left[m] && k != s.right[m]
          ensures s.weight[s.left[m]] <= s.weight[k] && s.weight[s.right[m]] <= s.weight[k]
        {
          assert Linked(t, k, alpha);
          assert t.Root(k);
        }
      }
    }
  }

  /** The weights of the nodes made up to m. */
  ghost function Merged(t: Forest, alpha: nat, m: int): int
    requires alpha <= m < |t.weight|
    decreases m
  {
    if m == alpha then 0 else Merged(t, alpha, m - 1) + Weight(t.weight[m])
  }

  /** From one root set to the next. */
  lemma RootsNext(t: Forest, alpha: nat, m: int)
    requires Greedy(t, alpha) && alpha < m < |t.parent|
    ensures Inner(t, m) && !RootsAt(t, m - 1)[m]
    ensures Lightest(RootsAt(t, m - 1), Weights(t), Depths(t), t.left[m], t.right[m])
    ensures RootsAt(t, m) == RootsAt(t, m - 1)[t.left[m] := false][t.right[m] := false][m := true]
    ensures forall k :: 0 <= k < |t.parent| && RootsAt(t, m - 1)[k] ==> Weights(t)[k] >= 0
  {
    assert Inner(t, m) && Picked(t, m) && Linked(t, m, alpha);
    var before, after := RootsAt(t, m - 1), RootsAt(t, m);
    var joined := before[t.left[m] := false][t.right[m] := false][m := true];
    forall k | 0 <= k < |t.parent| ensures after[k] == joined[k] {
      if k > 0 { assert Linked(t, k, alpha); }
    }
    forall k | 0 <= k < |t.parent| && before[k] && k != t.left[m] && k != t.right[m]
      ensures Before(Weights(t), Depths(t), t.left[m], k) && Before(Weights(t), Depths(t), t.right[m], k)
    {
      PackedBefore(t, t.left[m], k);
      PackedBefore(t, t.right[m], k);
    }
  }

  /** Any table for the leaves gives one for the roots at any later time, cheaper by the weights made. */
  lemma {:induction false} LowerBound(t: Forest, alpha: nat, l: seq<int>, d: nat, m: int) returns (r: seq<int>, e: nat)
    requires Greedy(t, alpha) && alpha <= m < |t.parent| == |l| && Feasible(RootsAt(t, alpha), l, d)
    ensures |r| == |l| && Feasible(RootsAt(t, m), r, e)
    ensures CostIn(RootsAt(t, m), Weights(t), r) + Merged(t, alpha, m) <= CostIn(RootsAt(t, alpha), Weights(t), l)
    ensures CostIn(RootsAt(t, m), Weights(t), r) + Merged(t, alpha, m) == CostIn(RootsAt(t, alpha), Weights(t), l) ==>
              forall h :: Within(RootsAt(t, alpha), l, Depths(t), h) ==> Within(RootsAt(t, m), r, Depths(t), h)
    decreases m
  {
    hide Greedy, Feasible, CostIn, Lightest, WellFormed, Within;
    Sizes(t, alpha);
    if m == alpha {
      r, e := l, d;
    } else {
      var s, f := LowerBound(t, alpha, l, d, m - 1);
      RootsNext(t, alpha, m);
      r, e := Join(RootsAt(t, m - 1), Weights(t), Depths(t), s, f, t.left[m], t.right[m], m);
    }
  }

  lemma Sizes(t: Forest, alpha: nat)
    requires Greedy(t, alpha)
    ensures |t.parent| == |t.weight| == |t.left| == |t.right| > alpha >= 1 && WellFormed(t, alpha)
  {
  }

  lemma {:induction false} CostSome(mask: seq<bool>, w: seq<int>, l: seq<int>)
    requires |mask| == |w| == |l| && forall k :: 0 <= k < |mask| && mask[k] ==> w[k] >= 0 && l[k] >= 0
    ensures CostIn(mask, w, l) >= 0
    ensures (forall k :: 0 <= k < |mask| && mask[k] ==> l[k] == 0) ==> CostIn(mask, w, l) == 0
  {
    if mask != [] {
      var k := |mask| - 1;
      CostSome(mask[..k], w[..k], l[..k]);
      Product(w[k], l[k]);
    }
  }

  lemma Product(a: int, b: int)
    ensures a >= 0 && b >= 0 ==> a * b >= 0
    ensures b == 0 ==> a * b == 0
  {
  }

  /** The levels of all nodes. */
  ghost function Levels(t: Forest): (l: seq<int>)
    requires Ascending(t.parent)
    ensures |l| == |t.parent| && forall k :: 0 < k < |l| ==> l[k] == Level(t.parent, k)
  {
    seq(|t.parent|, (k: int) requires 0 <= k < |t.parent| => if k == 0 then 0 else Level(t.parent, k))
  }

  /** The levels of the tree cost exactly the weights made. */
  lemma {:induction false} OwnCost(t: Forest, alpha: nat, m: int)
    requires Greedy(t, alpha) && Ascending(t.parent) && alpha <= m < |t.parent|
    ensures CostIn(RootsAt(t, alpha), Weights(t), Levels(t)) ==
            CostIn(RootsAt(t, m), Weights(t), Levels(t)) + Merged(t, alpha, m)
    decreases m
  {
    hide Greedy, CostIn, Lightest, WellFormed;
    Sizes(t, alpha);
    if m > alpha {
      OwnCost(t, alpha, m - 1);
      RootsNext(t, alpha, m);
      LevelsNext(t, m);
      var mask, w, l, a, b := RootsAt(t, m - 1), Weights(t), Levels(t), t.left[m], t.right[m];
      Sides(mask, w, Depths(t), a, b);
      CostDrop(mask, w, l, a);
      CostDrop(mask[a := false], w, l, b);
      assert RootsAt(t, m)[m := false] == mask[a := false][b := false];
      CostDrop(RootsAt(t, m), w, l, m);
      Sums(w[a], w[b], l[m] + 1);
    }
  }

  lemma Sides(mask: seq<bool>, w: seq<int>, dep: seq<int>, a: int, b: int)
    requires Lightest(mask, w, dep, a, b)
    ensures |mask| == |w| && 0 <= a < |mask| && 0 <= b < |mask| && a != b && mask[a] && mask[b]
  {
  }

  lemma LevelsNext(t: Forest, m: int)
    requires Ascending(t.parent) && |t.parent| == |t.weight| == |t.left| == |t.right| && 0 < m < |t.parent| && Inner(t, m)
    ensures Levels(t)[t.left[m]] == Levels(t)[m] + 1 == Levels(t)[t.right[m]]
    ensures Weights(t)[m] == Weights(t)[t.left[m]] + Weights(t)[t.right[m]]
  {
  }

  // ----- tables of code lengths -----

  /** The cost of a table: what the symbols take, each as often as it weighs. */
  ghost function Cost(w: seq<int>, len: seq<int>): int
    requires |w| == |len|
  {
    if w == [] then 0 else Cost(w[..|w| - 1], len[..|w| - 1]) + w[|w| - 1] * len[|w| - 1]
  }

  /** A table of n lengths that satisfies Kraft's inequality. */
  ghost predicate Table(len: seq<int>, n: nat, d: nat) {
    |len| == n && (forall i :: 0 <= i < n ==> 0 <= len[i] <= d) && Kraft(len, d) <= Pow2(d)
  }

  /** A table that no other undercuts. */
  ghost predicate LeastCost(w: seq<int>, len: seq<int>) {
    && (exists d :: Table(len, |w|, d))
    && forall other, d :: Table(other, |w|, d) ==> Cost(w, len) <= Cost(w, other)
  }

  /** A table as lengths of nodes. */
  ghost function OfNodes(len: seq<int>, n: nat): (l: seq<int>)
    ensures |l| == n
    ensures forall k :: 0 <= k < n ==> l[k] == if 0 < k <= |len| then len[k - 1] else 0
  {
    seq(n, k => if 0 < k <= |len| then len[k - 1] else 0)
  }

  /** Of the first j nodes, the leaves are those of the table. */
  lemma {:induction false} NodesCost(mask: seq<bool>, w: seq<int>, l: seq<int>, ws: seq<int>, len: seq<int>, j: nat)
    requires |mask| == |w| == |l| && |ws| == |len| && 0 < j <= |mask|
    requires forall k :: 0 <= k < |mask| ==> (mask[k] <==> 0 < k <= |len|)
    requires forall k :: 0 < k < |mask| && k <= |len| ==> w[k] == ws[k - 1] && l[k] == len[k - 1]
    ensures var n := Min(j - 1, |len|); CostIn(mask[..j], w[..j], l[..j]) == Cost(ws[..n], len[..n])
    decreases j
  {
    assert mask[..j][..j - 1] == mask[..j - 1] && w[..j][..j - 1] == w[..j - 1] && l[..j][..j - 1] == l[..j - 1];
    if j > 1 {
      NodesCost(mask, w, l, ws, len, j - 1);
      if j - 1 <= |len| {
        assert ws[..j - 1][..j - 2] == ws[..j - 2] && len[..j - 1][..j - 2] == len[..j - 2];
      }
    }
  }

  lemma {:induction false} NodesKraft(mask: seq<bool>, l: seq<int>, len: seq<int>, d: nat, j: nat)
    requires |mask| == |l| && 0 < j <= |mask|
    requires forall k :: 0 <= k < |mask| ==> (mask[k] <==> 0 < k <= |len|)
    requires forall k :: 0 < k < |mask| && k <= |len| ==> l[k] == len[k - 1]
    requires forall i :: 0 <= i < |len| ==> 0 <= len[i] <= d
    ensures Bounded(mask[..j], l[..j], d)
    ensures var n := Min(j - 1, |len|); KraftIn(mask[..j], l[..j], d) == Kraft(len[..n], d)
    decreases j
  {
    hide Pow2;
    assert mask[..j][..j - 1] == mask[..j - 1] && l[..j][..j - 1] == l[..j - 1];
    if j > 1 {
      NodesKraft(mask, l, len, d, j - 1);
      if j - 1 <= |len| { assert len[..j - 1][..j - 2] == len[..j - 2]; }
    }
  }

  /** The leaves as they are weighed. */
  ghost function LeavesOf(t: Forest, alpha: nat): (w: seq<int>)
    requires alpha < |t.weight|
    ensures |w| == alpha && forall i :: 0 <= i < alpha ==> w[i] == Weight(t.weight[i + 1])
  {
    seq(alpha, (i: int) requires 0 <= i < alpha => Weight(t.weight[i + 1]))
  }

  lemma LeafTable(t: Forest, alpha: nat, len: seq<int>, l: seq<int>, d: nat)
    requires WellFormed(t, alpha) && |len| == alpha && |l| == |t.parent|
    requires forall i :: 0 <= i < alpha ==> 0 <= len[i] <= d && l[i + 1] == len[i]
    ensures Bounded(RootsAt(t, alpha), l, d) && KraftIn(RootsAt(t, alpha), l, d) == Kraft(len, d)
    ensures CostIn(RootsAt(t, alpha), Weights(t), l) == Cost(LeavesOf(t, alpha), len)
  {
    hide CostIn, KraftIn, Cost, Kraft;
    var mask, w, ws := RootsAt(t, alpha), Weights(t), LeavesOf(t, alpha);
    forall k | 0 <= k < |mask| ensures mask[k] <==> 0 < k <= |len| {
      if k > 0 { assert Linked(t, k, alpha); }
    }
    NodesCost(mask, w, l, ws, len, |mask|);
    NodesKraft(mask, l, len, d, |mask|);
    assert mask[..|mask|] == mask && w[..|mask|] == w && l[..|mask|] == l && ws[..alpha] == ws && len[..alpha] == len;
  }

  /** No table of least cost has a shorter longest code. */
  ghost predicate Shallowest(w: seq<int>, len: seq<int>) {
    forall other, h :: LeastCost(w, other) && AtMost(other, h) ==> AtMost(len, h)
  }

  ghost predicate AtMost(len: seq<int>, h: int) {
    forall i :: 0 <= i < |len| ==> len[i] <= h
  }

  /** Huffman's theorem: the lengths read off the finished tree cost least of all tables. */
  lemma Huffman(t: Forest, alpha: nat, len: seq<int>, d: nat)
    requires Tree(t, alpha) && Greedy(t, alpha) && Ascending(t.parent) && |len| == alpha
    requires forall i :: 0 <= i < alpha ==> len[i] == Level(t.parent, i + 1)
    requires Table(len, alpha, d)
    ensures LeastCost(LeavesOf(t, alpha), len) && Shallowest(LeavesOf(t, alpha), len)
  {
    hide CostIn, KraftIn, Cost, Kraft, Level, Greedy, AtMost;
    var w := LeavesOf(t, alpha);
    assert Table(len, |w|, d);
    forall other, e | Table(other, |w|, e) ensures Cost(w, len) <= Cost(w, other) {
      Undercuts(t, alpha, len, d, other, e);
    }
    forall other, h | LeastCost(w, other) && AtMost(other, h) ensures AtMost(len, h) {
      var e :| Table(other, |w|, e);
      assert Cost(w, other) <= Cost(w, len);
      Undercuts(t, alpha, len, d, other, e);
      NotDeeper(t, alpha, len, d, other, e, h);
    }
  }

  /** A table that costs no more is no shallower: the root's depth bounds every length. */
  lemma NotDeeper(t: Forest, alpha: nat, len: seq<int>, d: nat, other: seq<int>, e: nat, h: int)
    requires Tree(t, alpha) && Greedy(t, alpha) && Ascending(t.parent) && |len| == alpha
    requires forall i :: 0 <= i < alpha ==> len[i] == Level(t.parent, i + 1)
    requires Table(len, alpha, d) && Table(other, alpha, e) && AtMost(other, h)
    requires Cost(LeavesOf(t, alpha), len) == Cost(LeavesOf(t, alpha), other)
    ensures AtMost(len, h)
  {
    hide CostIn, KraftIn, Cost, Kraft, Level, Greedy;
    var top, l := |t.parent| - 1, OfNodes(other, |t.parent|);
    LeafTable(t, alpha, len, Levels(t), d);
    OwnCost(t, alpha, top);
    AtTop(t, alpha, Levels(t));
    LeafTable(t, alpha, other, l, e);
    var r, f := LowerBound(t, alpha, l, e, top);
    AtTop(t, alpha, r);
    LeavesWithin(t, alpha, other, h);
    RootWithin(t, alpha, r, h);
    forall i | 0 <= i < alpha ensures len[i] <= h { LevelBound(t, alpha, i + 1); }
  }

  /** Leaves have no levels below them. */
  lemma LeavesWithin(t: Forest, alpha: nat, other: seq<int>, h: int)
    requires WellFormed(t, alpha) && |other| == alpha && AtMost(other, h)
    ensures Within(RootsAt(t, alpha), OfNodes(other, |t.parent|), Depths(t), h)
  {
    var mask := RootsAt(t, alpha);
    forall k | 0 <= k < |mask| && mask[k] ensures OfNodes(other, |t.parent|)[k] + Depths(t)[k] <= h {
      assert Linked(t, k, alpha);
    }
  }

  lemma RootWithin(t: Forest, alpha: nat, r: seq<int>, h: int)
    requires Tree(t, alpha) && |r| == |t.parent| && Within(RootsAt(t, |t.parent| - 1), r, Depths(t), h)
    requires forall k :: 0 <= k < |r| && RootsAt(t, |t.parent| - 1)[k] ==> r[k] >= 0
    ensures Depth(t.weight[|t.parent| - 1]) <= h
  {
    assert RootsAt(t, |t.parent| - 1)[|t.parent| - 1];
  }

  lemma Undercuts(t: Forest, alpha: nat, len: seq<int>, d: nat, other: seq<int>, e: nat)
    requires Tree(t, alpha) && Greedy(t, alpha) && Ascending(t.parent) && |len| == alpha
    requires forall i :: 0 <= i < alpha ==> len[i] == Level(t.parent, i + 1)
    requires Table(len, alpha, d) && Table(other, alpha, e)
    ensures Cost(LeavesOf(t, alpha), len) <= Cost(LeavesOf(t, alpha), other)
  {
    hide CostIn, KraftIn, Cost, Kraft, Level, Greedy;
    var top := |t.parent| - 1;
    LeafTable(t, alpha, len, Levels(t), d);
    OwnCost(t, alpha, top);
    AtTop(t, alpha, Levels(t));
    LeafTable(t, alpha, other, OfNodes(other, |t.parent|), e);
    var r, f := LowerBound(t, alpha, OfNodes(other, |t.parent|), e, top);
    AtTop(t, alpha, r);
  }

  /** With one root left. */
  lemma AtTop(t: Forest, alpha: nat, l: seq<int>)
    requires Tree(t, alpha) && |l| == |t.parent| && Ascending(t.parent)
    requires forall k :: 0 <= k < |l| && RootsAt(t, |t.parent| - 1)[k] ==> l[k] >= 0
    ensures CostIn(RootsAt(t, |t.parent| - 1), Weights(t), l) >= 0
    ensures l == Levels(t) ==> CostIn(RootsAt(t, |t.parent| - 1), Weights(t), l) == 0
  {
    hide CostIn, KraftIn;
    CostSome(RootsAt(t, |t.parent| - 1), Weights(t), l);
  }
}
