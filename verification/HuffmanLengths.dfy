/**
  dep/bzip2/huffman.c, BZ2_hbMakeCodeLengths (lines 63-148): it terminates for every frequency
  table whose weights fit, and gives lengths between 1 and maxLen with Kraft's sum exactly 1, which
  cost least for the weights of the last round; the first round weighs the frequencies.
*/
module HuffmanLengths {
  import opened Common
  import opened HuffmanTree
  import opened HuffmanHeap
  import opened HuffmanCost

  const MAX_ALPHA_SIZE := 258

  /** Above this a weight shifted left by 8 would not fit an Int32. */
  const MAX_TOTAL := 0x7fffff

  /** The sum of the leaf weights 1, ..., k. */
  ghost function LeafSum(w: seq<int>, k: nat): int
    requires k < |w|
  {
    if k == 0 then 0 else LeafSum(w, k - 1) + Weight(w[k])
  }

  /** Leaf weights are positive multiples of 256 whose sum fits. */
  ghost predicate Leaves(w: seq<int>, alpha: nat) {
    && alpha < |w|
    && (forall k :: 0 < k <= alpha ==> Weight(w[k]) >= 1 && Depth(w[k]) == 0)
    && LeafSum(w, alpha) <= MAX_TOTAL
  }

  lemma {:induction false} LeafSumSame(w: seq<int>, v: seq<int>, k: nat)
    requires k < |w| && k < |v| && forall i :: 0 < i <= k ==> w[i] == v[i]
    ensures LeafSum(w, k) == LeafSum(v, k)
  {
    if k > 0 { LeafSumSame(w, v, k - 1); }
  }

  /** A packed weight within the bound has depth below 255, so the low byte never carries. */
  lemma DepthSmall(wt: int, d: nat)
    requires Fib(d + 2) <= wt <= MAX_TOTAL
    ensures d < 34
  {
    if d >= 34 {
      FibMonotone(36, d + 2);
      FibValues();
    }
  }

  lemma FibValues()
    ensures Fib(20) == 6765 && Fib(36) == 14930352
  {
    assert Fib(8) == 21 && Fib(9) == 34;
    assert Fib(10) == 55 && Fib(11) == 89;
    assert Fib(12) == 144 && Fib(13) == 233;
    assert Fib(14) == 377 && Fib(15) == 610;
    assert Fib(16) == 987 && Fib(17) == 1597;
    assert Fib(18) == 2584 && Fib(19) == 4181;
    assert Fib(20) == 6765 && Fib(21) == 10946;
    assert Fib(22) == 17711 && Fib(23) == 28657;
    assert Fib(24) == 46368 && Fib(25) == 75025;
    assert Fib(26) == 121393 && Fib(27) == 196418;
    assert Fib(28) == 317811 && Fib(29) == 514229;
    assert Fib(30) == 832040 && Fib(31) == 1346269;
    assert Fib(32) == 2178309 && Fib(33) == 3524578;
    assert Fib(34) == 5702887 && Fib(35) == 9227465;
  }

  // ----- building the tree -----

  /** While merging: the heap holds exactly the roots of the forest in the arrays. */
  ghost predicate Building(h: seq<int>, t: Forest, low: nat, alpha: nat, nHeap: int, total: int) {
    && WellFormed(t, alpha) && Grown(t, low) && Greedy(t, alpha)
    && RootSum(t, |t.parent| - 1) == total <= MAX_TOTAL
    && nHeap + |t.parent| - 1 == 2 * alpha
    && Heaped(h, t.weight, nHeap) && Ordered(h, t.weight, nHeap)
    && forall x :: t.Root(x) <==> Has(h, nHeap, x)
  }

  function Sprouts(w: seq<int>, alpha: nat): Forest
    requires alpha < |w|
  {
    Forest(seq(alpha + 1, i => if i == 0 then -2 else -1), w[..alpha + 1], seq(alpha + 1, i => 0), seq(alpha + 1, i => 0))
  }

  lemma {:induction false} SproutsSum(w: seq<int>, alpha: nat, k: nat)
    requires alpha < |w| && k <= alpha
    ensures RootSum(Sprouts(w, alpha), k) == LeafSum(w, k)
  {
    if k > 0 { SproutsSum(w, alpha, k - 1); }
  }

  lemma BuildingStart(h: seq<int>, w: seq<int>, alpha: nat)
    requires Leaves(w, alpha) && alpha >= 1
    requires Heaped(h, w[..alpha + 1], alpha) && Ordered(h, w[..alpha + 1], alpha)
    requires forall x :: Has(h, alpha, x) <==> 0 < x <= alpha
    ensures Building(h, Sprouts(w, alpha), 1, alpha, alpha, LeafSum(w, alpha))
  {
    SproutsSum(w, alpha, alpha);
    assert Fib(1) == 1 && Fib(2) == 1;
    assert |Sprouts(w, alpha).parent| == alpha + 1;
  }

  /** A heavier weight array does not disturb the heap. */
  lemma HeapExtends(h: seq<int>, w: seq<int>, n: int, x: int)
    requires Heaped(h, w, n) && Ordered(h, w, n)
    ensures Heaped(h, w + [x], n) && Ordered(h, w + [x], n)
  {
    forall i | 2 <= i <= n ensures Below(h, w + [x], i / 2, i) {
      assert Below(h, w, i / 2, i);
    }
  }

  /** What a merge needs to know about the two nodes just popped. */
  lemma PoppedFacts(t: Forest, low: nat, alpha: nat, h: seq<int>, nHeap: int, total: int, x: int)
    requires Building(h, t, low, alpha, nHeap, total) && Has(h, nHeap, x)
    ensures t.Root(x) && 1 <= Weight(t.weight[x]) && Depth(t.weight[x]) < 34
    ensures Weight(t.weight[x]) <= MAX_TOTAL
  {
    assert t.Root(x);
    RootBelowSum(t, alpha, |t.parent| - 1, x);
    DepthSmall(Weight(t.weight[x]), Depth(t.weight[x]));
  }

  lemma BuildingMerge(h0: seq<int>, h: seq<int>, t: Forest, low: nat, alpha: nat, nHeap: int, total: int,
                      n1: int, n2: int, w: int)
    requires Building(h0, t, low, alpha, nHeap, total)
    requires Has(h0, nHeap, n1) && Has(h0, nHeap, n2) && n1 != n2 && w > 0
    requires forall x :: Has(h0, nHeap, x) ==> 0 < x < |t.weight| && t.weight[n1] <= t.weight[x]
    requires forall x :: Has(h0, nHeap, x) && x != n1 ==> t.weight[n2] <= t.weight[x]
    requires Weight(w) == Weight(t.weight[n1]) + Weight(t.weight[n2])
    requires Depth(w) == 1 + Max(Depth(t.weight[n1]), Depth(t.weight[n2]))
    requires Heaped(h, t.weight + [w], nHeap - 1) && Ordered(h, t.weight + [w], nHeap - 1)
    requires forall x :: Has(h, nHeap - 1, x) <==> (Has(h0, nHeap, x) && x != n1 && x != n2) || x == |t.parent|
    ensures Building(h, Merge(t, n1, n2, w), Weight(t.weight[n2]), alpha, nHeap - 1, total)
  {
    hide Heaped, Ordered, OrderedBut, Has, WellFormed, Grown, RootSum, Greedy;
    assert t.Root(n1) && t.Root(n2);
    forall k | t.Root(k) && k != n1 && k != n2 ensures Weight(t.weight[n2]) <= Weight(t.weight[k]) {
      PackedOrder(t.weight[n2], t.weight[k]);
    }
    PackedOrder(t.weight[n1], t.weight[n2]);
    Shapes(t, low, alpha);
    MergeRoots(t, n1, n2, w);
    MergeWellFormed(t, alpha, n1, n2, w);
    MergeGrown(t, n1, n2, w, low);
    MergeGreedy(t, alpha, n1, n2, w);
    MergeSum(t, n1, n2, w);
  }

  lemma Shapes(t: Forest, low: nat, alpha: nat)
    requires WellFormed(t, alpha)
    ensures |t.parent| == |t.weight| == |t.left| == |t.right| > alpha >= 1
    ensures forall k :: 0 < k < |t.parent| ==> Weight(t.weight[k]) >= 1
  {
  }

  /** With a single root left, the forest is a tree. */
  lemma BuildingEnd(h: seq<int>, t: Forest, low: nat, alpha: nat, total: int)
    requires Building(h, t, low, alpha, 1, total) && alpha >= 2
    ensures Tree(t, alpha) && |t.parent| == 2 * alpha
    ensures Grown(t, low) && RootSum(t, |t.parent| - 1) == total && Greedy(t, alpha)
  {
    hide Greedy;
    var r := |t.parent| - 1;
    assert Linked(t, r, alpha);
    assert t.Root(r);
    var i :| 1 <= i <= 1 && h[i] == r;
    forall k | 0 < k < |t.parent| ensures t.parent[k] < 0 <==> k == r {
      if t.parent[k] < 0 {
        assert t.Root(k);
        var j :| 1 <= j <= 1 && h[j] == k;
      }
    }
  }

  /** The arrays agree with the forest. */
  ghost predicate Stored(parent: seq<int>, weight: seq<int>, t: Forest) {
    && |t.parent| == |t.weight| <= |parent| && |t.weight| <= |weight|
    && parent[..|t.parent|] == t.parent && weight[..|t.weight|] == t.weight
  }

  /** The loop that puts every leaf on the heap. */
  method FillHeap(heap: array<int>, weight: array<int>, parent: array<int>, alphaSize: int) returns (nHeap: int)
    requires heap != weight && heap != parent && weight != parent
    requires 2 <= alphaSize <= MAX_ALPHA_SIZE && heap.Length == 260 && weight.Length == parent.Length == 516
    requires Leaves(weight[..], alphaSize)
    modifies heap, weight, parent
    ensures nHeap == alphaSize
    ensures Leaves(weight[..], alphaSize) && weight[..] == old(weight[..])[0 := 0]
    ensures LeafSum(weight[..], alphaSize) == old(LeafSum(weight[..], alphaSize))
    ensures Stored(parent[..], weight[..], Sprouts(weight[..], alphaSize))
    ensures Building(heap[..], Sprouts(weight[..], alphaSize), 1, alphaSize, nHeap, LeafSum(weight[..], alphaSize))
  {
    hide Heaped, Ordered, OrderedBut, Has, Building, LeafSum, Leaves;
    ghost var w0 := weight[..];
    nHeap := 0;
    heap[0] := 0;
    weight[0] := 0;
    parent[0] := -2;
    LeavesZero(w0, weight[..], alphaSize);
    ghost var full := weight[..];
    ghost var w := full[..alphaSize + 1];
    EmptyHeap(heap[..], w);
    LeafWeights(full, alphaSize);
    for i := 1 to alphaSize + 1
      invariant nHeap == i - 1 && parent[0] == -2 && weight[..] == full
      invariant forall k :: 1 <= k < i ==> parent[k] == -1
      invariant Heaped(heap[..], w, nHeap) && Ordered(heap[..], w, nHeap)
      invariant forall x :: Has(heap[..], nHeap, x) <==> 0 < x < i
    {
      parent[i] := -1;
      assert weight[..|w|] == w;
      nHeap := Push(heap, weight, nHeap, i, w);
    }
    assert parent[..alphaSize + 1] == Sprouts(full, alphaSize).parent;
    BuildingStart(heap[..], full, alphaSize);
  }

  lemma LeavesZero(w: seq<int>, v: seq<int>, alpha: nat)
    requires Leaves(w, alpha) && v == w[0 := 0]
    ensures Leaves(v, alpha) && LeafSum(v, alpha) == LeafSum(w, alpha)
  {
    LeafSumSame(w, v, alpha);
  }

  lemma LeafWeights(w: seq<int>, alpha: nat)
    requires Leaves(w, alpha)
    ensures forall k :: 0 < k <= alpha ==> w[k] > 0
  {
  }

  lemma EmptyHeap(h: seq<int>, w: seq<int>)
    requires |h| > 0 && |w| > 0 && h[0] == 0 && w[0] == 0
    ensures Heaped(h, w, 0) && Ordered(h, w, 0) && forall x :: !Has(h, 0, x)
  {
  }

  /** One round of merging: the two lightest roots get a common parent. */
  method MergeTwo(heap: array<int>, weight: array<int>, parent: array<int>, nHeap0: int, nNodes0: int,
                  ghost t: Forest, ghost low: nat, ghost alpha: nat, ghost total: int)
    returns (nHeap: int, nNodes: int, ghost s: Forest, ghost low': nat)
    requires heap != weight && heap != parent && weight != parent
    requires heap.Length == 260 && weight.Length == parent.Length == 516 && 2 <= alpha <= MAX_ALPHA_SIZE
    requires nHeap0 >= 2 && |t.parent| == nNodes0 + 1 && nHeap0 + nNodes0 == 2 * alpha
    requires Stored(parent[..], weight[..], t) && Building(heap[..], t, low, alpha, nHeap0, total)
    requires alpha < |t.weight|
    modifies heap, weight, parent
    ensures nHeap == nHeap0 - 1 && nNodes == nNodes0 + 1 && |s.parent| == nNodes + 1
    ensures Stored(parent[..], weight[..], s) && Building(heap[..], s, low', alpha, nHeap, total)
    ensures |s.weight| > |t.weight| && forall k :: 0 <= k < |t.weight| ==> s.weight[k] == t.weight[k]
  {
    hide Heaped, Ordered, OrderedBut, Has, Building;
    ghost var h0, n0 := heap[..], nHeap0;
    BuildingHeap(h0, t, low, alpha, n0, total);
    var n1, n2;
    n1, nHeap := PopLightest(heap, weight, nHeap0, t.weight);
    n2, nHeap := PopLightest(heap, weight, nHeap, t.weight);
    PoppedFacts(t, low, alpha, h0, n0, total, n1);
    PoppedFacts(t, low, alpha, h0, n0, total, n2);
    nNodes := nNodes0 + 1;
    parent[n1] := nNodes;
    parent[n2] := nNodes;
    assert weight[n1] == t.weight[n1] && weight[n2] == t.weight[n2];
    var w := AddWeights(weight[n1], weight[n2]);
    weight[nNodes] := w;
    parent[nNodes] := -1;
    s := Merge(t, n1, n2, w);
    assert parent[..nNodes + 1] == s.parent;
    assert weight[..nNodes + 1] == s.weight;
    HeapExtends(heap[..], t.weight, nHeap, w);
    NewNode(t, h0, n0, |t.parent|);
    nHeap := Push(heap, weight, nHeap, nNodes, s.weight);
    BuildingMerge(h0, heap[..], t, low, alpha, n0, total, n1, n2, w);
    low' := Weight(t.weight[n2]);
  }

  /** Merging until one tree is left. */
  method BuildTree(heap: array<int>, weight: array<int>, parent: array<int>, alphaSize: int)
    returns (nNodes: int, ghost t: Forest, ghost low: nat)
    requires heap != weight && heap != parent && weight != parent
    requires 2 <= alphaSize <= MAX_ALPHA_SIZE && heap.Length == 260 && weight.Length == parent.Length == 516
    requires Leaves(weight[..], alphaSize)
    modifies heap, weight, parent
    ensures nNodes == 2 * alphaSize - 1 && |t.parent| == nNodes + 1
    ensures Tree(t, alphaSize) && Grown(t, low) && Greedy(t, alphaSize) && parent[..nNodes + 1] == t.parent
    ensures RootSum(t, nNodes) == old(LeafSum(weight[..], alphaSize))
    ensures forall k :: 0 < k <= alphaSize ==> weight[k] == old(weight[k]) == t.weight[k]
  {
    hide Building, LeafSum, Leaves, Grown, RootSum, Tree, WellFormed, Greedy;
    ghost var total := LeafSum(weight[..], alphaSize);
    ghost var w0 := weight[..];
    var nHeap := FillHeap(heap, weight, parent, alphaSize);
    nNodes := alphaSize;
    t, low := Sprouts(weight[..], alphaSize), 1;
    while nHeap > 1
      invariant 1 <= nHeap && nHeap + nNodes == 2 * alphaSize && |t.parent| == nNodes + 1 <= 516
      invariant Stored(parent[..], weight[..], t)
      invariant Building(heap[..], t, low, alphaSize, nHeap, total)
      invariant alphaSize < |t.weight| && forall k :: 0 < k <= alphaSize ==> t.weight[k] == w0[k]
      decreases nHeap
    {
      nHeap, nNodes, t, low := MergeTwo(heap, weight, parent, nHeap, nNodes, t, low, alphaSize, total);
    }
    BuildingEnd(heap[..], t, low, alphaSize, total);
    assert forall k :: 0 < k <= alphaSize ==> weight[..|t.weight|][k] == t.weight[k];
  }

  lemma BuildingHeap(h: seq<int>, t: Forest, low: nat, alpha: nat, nHeap: int, total: int)
    requires Building(h, t, low, alpha, nHeap, total)
    ensures |t.parent| == |t.weight| && Heaped(h, t.weight, nHeap) && Ordered(h, t.weight, nHeap)
    ensures forall x :: Has(h, nHeap, x) ==> 0 < x < |t.parent|
  {
  }

  lemma NewNode(t: Forest, h: seq<int>, nHeap: int, x: int)
    requires forall y :: Has(h, nHeap, y) ==> 0 < y < |t.parent|
    requires x == |t.parent|
    ensures !Has(h, nHeap, x)
  {
  }

  // ----- reading off the lengths, and rescaling -----

  /** The loop that walks from every leaf to the root. */
  method ReadLengths(len: array<int>, parent: array<int>, alphaSize: int, maxLen: int, ghost t: Forest)
    returns (tooLong: bool)
    requires len != parent && Ascending(t.parent) && 0 <= alphaSize < |t.parent| <= parent.Length
    requires parent[..|t.parent|] == t.parent && alphaSize <= len.Length
    modifies len
    ensures forall i :: 0 <= i < alphaSize ==> len[i] == Level(t.parent, i + 1)
    ensures tooLong <==> exists i :: 0 <= i < alphaSize && len[i] > maxLen
    ensures forall i :: alphaSize <= i < len.Length ==> len[i] == old(len[i])
  {
    tooLong := false;
    ghost var P, bad := t.parent, 0;
    for i := 1 to alphaSize + 1
      invariant parent[..|P|] == P
      invariant forall k :: alphaSize <= k < len.Length ==> len[k] == old(len[k])
      invariant forall k :: 0 <= k < i - 1 ==> len[k] == Level(P, k + 1)
      invariant tooLong ==> 0 <= bad < i - 1 && len[bad] > maxLen
      invariant !tooLong ==> forall k :: 0 <= k < i - 1 ==> len[k] <= maxLen
    {
      var j, k := 0, i;
      while parent[k] >= 0
        invariant 0 < k < |P| && 0 <= j && j + Level(P, k) == Level(P, i)
        decreases |P| - k
      {
        assert parent[k] == P[k];
        k := parent[k];
        j := j + 1;
      }
      assert parent[k] == P[k];
      len[i - 1] := j;
      if j > maxLen {
        tooLong := true;
        bad := i - 1;
      }
    }
  }

  lemma {:induction false} SmallLeaves(w: seq<int>, k: nat)
    requires k < |w| && forall i :: 0 < i <= k ==> Weight(w[i]) <= 2
    ensures LeafSum(w, k) <= 2 * k
  {
    if k > 0 { SmallLeaves(w, k - 1); }
  }

  /** The scaled weight: halved, but at least 1. */
  function Scaled(w: int): (r: int)
    requires w >= 256
    ensures Depth(r) == 0 && 1 <= Weight(r) <= Weight(w) && (Weight(w) >= 3 ==> Weight(r) < Weight(w))
  {
    256 * (1 + (w / 256) / 2)
  }

  lemma {:induction false} ScaledSum(w: seq<int>, v: seq<int>, k: nat)
    requires k < |w| && k < |v| && forall i :: 0 < i <= k ==> w[i] >= 256 && v[i] == Scaled(w[i])
    ensures LeafSum(v, k) <= LeafSum(w, k)
    ensures (exists i :: 0 < i <= k && Weight(w[i]) >= 3) ==> LeafSum(v, k) < LeafSum(w, k)
  {
    if k > 0 { ScaledSum(w, v, k - 1); }
  }

  // ----- the weights of each round -----

  /** The frequencies as they are weighed at first: an absent symbol counts once. */
  ghost function Weighed(freq: seq<int>, alpha: nat): (w: seq<int>)
    requires alpha <= |freq|
    ensures |w| == alpha && forall i :: 0 <= i < alpha ==> w[i] == if freq[i] == 0 then 1 else freq[i]
  {
    seq(alpha, (i: int) requires 0 <= i < alpha => if freq[i] == 0 then 1 else freq[i])
  }

  /** Halved, but at least one. */
  ghost function Halved(w: seq<int>): (v: seq<int>)
    ensures |v| == |w| && forall i :: 0 <= i < |w| ==> v[i] == 1 + w[i] / 2
  {
    seq(|w|, (i: int) requires 0 <= i < |w| => 1 + w[i] / 2)
  }

  /** The weights after a number of rounds that were too long. */
  ghost function WeightsAfter(freq: seq<int>, alpha: nat, rounds: nat): (w: seq<int>)
    requires alpha <= |freq|
    ensures |w| == alpha
  {
    if rounds == 0 then Weighed(freq, alpha) else Halved(WeightsAfter(freq, alpha, rounds - 1))
  }

  /** There are tables of least cost, but every one has a code longer than maxLen. */
  ghost predicate TooDeep(w: seq<int>, maxLen: int) {
    (exists l :: LeastCost(w, l)) && forall l :: LeastCost(w, l) ==> !AtMost(l, maxLen)
  }

  /** Lengths of least cost for the frequencies, or for their weights halved as often as all the best were too long. */
  ghost predicate BestLengths(freq: seq<int>, len: seq<int>, maxLen: int) {
    |len| <= |freq| && exists rounds: nat :: BestAfter(freq, len, maxLen, rounds)
  }

  ghost predicate BestAfter(freq: seq<int>, len: seq<int>, maxLen: int, rounds: nat)
    requires |len| <= |freq|
  {
    && LeastCost(WeightsAfter(freq, |len|, rounds), len) && Shallowest(WeightsAfter(freq, |len|, rounds), len)
    && forall j :: 0 <= j < rounds ==> TooDeep(WeightsAfter(freq, |len|, j), maxLen)
  }

  /** The packed weights of the leaves. */
  ghost predicate Packs(weight: seq<int>, w: seq<int>) {
    |w| < |weight| && forall i :: 0 <= i < |w| ==> weight[i + 1] == 256 * w[i]
  }

  lemma PackedLeaves(weight: seq<int>, w: seq<int>, t: Forest, alpha: nat)
    requires Packs(weight, w) && |w| == alpha < |t.weight| && forall k :: 0 < k <= alpha ==> t.weight[k] == weight[k]
    ensures LeavesOf(t, alpha) == w
  {
    forall i | 0 <= i < alpha ensures LeavesOf(t, alpha)[i] == w[i] {
      assert t.weight[i + 1] == 256 * w[i];
    }
  }

  /** The rescaling loop. */
  method Rescale(weight: array<int>, alphaSize: int, ghost w0: seq<int>)
    requires 0 <= alphaSize < weight.Length && Leaves(weight[..], alphaSize) && Packs(weight[..], w0) && |w0| == alphaSize
    modifies weight
    ensures Leaves(weight[..], alphaSize) && Packs(weight[..], Halved(w0))
    ensures old(exists i :: 0 < i <= alphaSize && Weight(weight[i]) >= 3) ==>
              LeafSum(weight[..], alphaSize) < old(LeafSum(weight[..], alphaSize))
  {
    ghost var w := weight[..];
    for i := 1 to alphaSize + 1
      invariant forall k :: 0 < k < i ==> weight[k] == Scaled(w[k])
      invariant forall k :: i <= k <= alphaSize ==> weight[k] == w[k]
    {
      var j := weight[i] / 256;
      j := 1 + j / 2;
      weight[i] := j * 256;
    }
    forall i | 0 <= i < alphaSize ensures weight[i + 1] == 256 * Halved(w0)[i] {
      assert w[i + 1] == 256 * w0[i];
    }
    ScaledSum(w, weight[..], alphaSize);
  }

  /** A code that is too long shows that some weight is still 3 or more, so rescaling makes progress. */
  lemma TooLongHeavy(t: Forest, low: nat, w: seq<int>, alpha: nat, maxLen: nat, i: int)
    requires Tree(t, alpha) && Ascending(t.parent) && Grown(t, low) && Leaves(w, alpha)
    requires RootSum(t, |t.parent| - 1) == LeafSum(w, alpha) && Fib(maxLen + 3) > 2 * alpha
    requires 0 < i <= alpha && Level(t.parent, i) > maxLen
    ensures exists k :: 0 < k <= alpha && Weight(w[k]) >= 3
  {
    TreeDepth(t, alpha, low);
    LevelBound(t, alpha, i);
    FibMonotone(maxLen + 3, Depth(t.weight[|t.parent| - 1]) + 2);
    if forall k :: 0 < k <= alpha ==> Weight(w[k]) < 3 {
      SmallLeaves(w, alpha);
    }
  }

  /** The code lengths of a finished tree, none too long. */
  lemma TreeLengths(t: Forest, alpha: nat, len: seq<int>, maxLen: nat)
    requires Tree(t, alpha) && Ascending(t.parent) && |len| == alpha
    requires forall i :: 0 <= i < alpha ==> len[i] == Level(t.parent, i + 1) && len[i] <= maxLen
    ensures forall i :: 0 <= i < alpha ==> 1 <= len[i] <= maxLen
    ensures Kraft(len, maxLen) == Pow2(maxLen)
  {
    forall i | 0 <= i < alpha ensures len[i] >= 1 {
      LevelBound(t, alpha, i + 1);
    }
    KraftExact(t, alpha, maxLen, len);
  }

  lemma TreeAscending(t: Forest, alpha: nat)
    requires Tree(t, alpha)
    ensures Ascending(t.parent) && |t.parent| >= alpha + 2
  {
    WellFormedAscending(t, alpha);
  }

  /** The frequencies as the source weighs them: an absent symbol counts once. */
  ghost function Total(freq: seq<int>, k: nat): int
    requires k <= |freq|
  {
    if k == 0 then 0 else Total(freq, k - 1) + if freq[k - 1] == 0 then 1 else freq[k - 1]
  }

  lemma {:induction false} InitialSum(w: seq<int>, freq: seq<int>, k: nat)
    requires k < |w| && k <= |freq|
    requires forall i :: 0 < i <= k ==> w[i] == 256 * if freq[i - 1] == 0 then 1 else freq[i - 1]
    ensures LeafSum(w, k) == Total(freq, k)
  {
    if k > 0 { InitialSum(w, freq, k - 1); }
  }

  /** The first loop: frequencies to packed weights. */
  method InitWeights(weight: array<int>, freq: array<int>, alphaSize: int)
    requires weight != freq && 0 <= alphaSize <= freq.Length && alphaSize < weight.Length
    requires forall i :: 0 <= i < alphaSize ==> freq[i] >= 0
    requires Total(freq[..], alphaSize) <= MAX_TOTAL
    modifies weight
    ensures Leaves(weight[..], alphaSize) && LeafSum(weight[..], alphaSize) == Total(freq[..], alphaSize)
    ensures Packs(weight[..], Weighed(freq[..], alphaSize))
  {
    ghost var f := freq[..];
    for i := 0 to alphaSize
      invariant forall k :: 0 < k <= i ==> weight[k] == 256 * if f[k - 1] == 0 then 1 else f[k - 1]
    {
      weight[i + 1] := (if freq[i] == 0 then 1 else freq[i]) * 256;
    }
    InitialSum(weight[..], f, alphaSize);
  }

  /** The first round of a light table is never too long. */
  lemma LightEnough(t: Forest, low: nat, alpha: nat, maxLen: nat, i: int)
    requires Tree(t, alpha) && Ascending(t.parent) && Grown(t, low)
    requires 0 < i <= alpha && Level(t.parent, i) > maxLen
    ensures RootSum(t, |t.parent| - 1) >= Fib(maxLen + 3)
  {
    TreeDepth(t, alpha, low);
    LevelBound(t, alpha, i);
    FibMonotone(maxLen + 3, Depth(t.weight[|t.parent| - 1]) + 2);
  }

  /** The lengths of a finished tree cost least, too long or not. */
  lemma TreeLeast(t: Forest, alpha: nat, len: seq<int>, w: seq<int>, weight: seq<int>)
    requires Tree(t, alpha) && Ascending(t.parent) && Greedy(t, alpha) && |len| == alpha == |w|
    requires forall i :: 0 <= i < alpha ==> len[i] == Level(t.parent, i + 1)
    requires Packs(weight, w) && forall k :: 0 < k <= alpha ==> t.weight[k] == weight[k]
    ensures LeastCost(w, len) && Shallowest(w, len)
  {
    hide Level, Kraft, Cost, Greedy;
    var d := Depth(t.weight[|t.parent| - 1]);
    forall i | 0 <= i < alpha ensures 0 <= len[i] <= d { LevelBound(t, alpha, i + 1); }
    KraftExact(t, alpha, d, len);
    PackedLeaves(weight, w, t, alpha);
    Huffman(t, alpha, len, d);
  }

  /**
    BZ2_hbMakeCodeLengths. The lengths are the best there are for the frequencies, and of the best
    those with the shortest longest code; or, where all the best are too long, they are that for
    the weights halved as often as this was so. The compressor
    calls it with maxLen = 17 and alphaSize at most 258, where Fib(20) = 6765 exceeds twice the
    alphabet (CompressorLimit).
  */
  method MakeCodeLengths(len: array<int>, freq: array<int>, alphaSize: int, maxLen: int) returns (ghost rounds: nat)
    requires len != freq && 2 <= alphaSize <= MAX_ALPHA_SIZE && alphaSize <= freq.Length && alphaSize <= len.Length
    requires forall i :: 0 <= i < alphaSize ==> freq[i] >= 0
    requires Total(freq[..], alphaSize) <= MAX_TOTAL
    requires maxLen >= 0 && Fib(maxLen + 3) > 2 * alphaSize
    modifies len
    ensures forall i :: 0 <= i < alphaSize ==> 1 <= len[i] <= maxLen
    ensures Kraft(len[..alphaSize], maxLen) == Pow2(maxLen)
    ensures forall i :: alphaSize <= i < len.Length ==> len[i] == old(len[i])
    ensures LeastCost(WeightsAfter(freq[..], alphaSize, rounds), len[..alphaSize])
    ensures Shallowest(WeightsAfter(freq[..], alphaSize, rounds), len[..alphaSize])
    ensures forall j :: 0 <= j < rounds ==> TooDeep(WeightsAfter(freq[..], alphaSize, j), maxLen)
    ensures Total(freq[..], alphaSize) < Fib(maxLen + 3) ==> rounds == 0
  {
    hide Leaves, LeafSum, Tree, Grown, RootSum, Kraft, Level, Ascending, Fib, Greedy, LeastCost, Shallowest, TooDeep, Packs;
    var heap, weight, parent := new int[MAX_ALPHA_SIZE + 2], new int[MAX_ALPHA_SIZE * 2], new int[MAX_ALPHA_SIZE * 2];
    ghost var f := freq[..];
    InitWeights(weight, freq, alphaSize);
    rounds := 0;
    while true
      invariant Leaves(weight[..], alphaSize) && freq[..] == f && Packs(weight[..], WeightsAfter(f, alphaSize, rounds))
      invariant forall j :: 0 <= j < rounds ==> TooDeep(WeightsAfter(f, alphaSize, j), maxLen)
      invariant rounds == 0 ==> LeafSum(weight[..], alphaSize) == Total(f, alphaSize)
      invariant Total(f, alphaSize) < Fib(maxLen + 3) ==> rounds == 0
      invariant forall i :: alphaSize <= i < len.Length ==> len[i] == old(len[i])
      decreases LeafSum(weight[..], alphaSize)
    {
      LeavesNonNegative(weight[..], alphaSize);
      ghost var w := weight[..];
      ghost var low;
      var nNodes; ghost var t;
      nNodes, t, low := BuildTree(heap, weight, parent, alphaSize);
      LeavesSame(w, weight[..], alphaSize);
      TreeAscending(t, alphaSize);
      var tooLong := ReadLengths(len, parent, alphaSize, maxLen, t);
      assert forall i :: 0 <= i < alphaSize ==> len[..alphaSize][i] == len[i];
      PacksSame(w, weight[..], WeightsAfter(f, alphaSize, rounds));
      TreeLeast(t, alphaSize, len[..alphaSize], WeightsAfter(f, alphaSize, rounds), weight[..]);
      if !tooLong {
        TreeLengths(t, alphaSize, len[..alphaSize], maxLen);
        break;
      }
      ghost var i :| 0 <= i < alphaSize && len[i] > maxLen;
      TooLongHeavy(t, low, weight[..], alphaSize, maxLen, i + 1);
      LightEnough(t, low, alphaSize, maxLen, i + 1);
      FoundDeep(WeightsAfter(f, alphaSize, rounds), len[..alphaSize], i, maxLen);
      Rescale(weight, alphaSize, WeightsAfter(f, alphaSize, rounds));
      rounds := rounds + 1;
    }
  }

  lemma FoundDeep(w: seq<int>, l: seq<int>, i: int, maxLen: int)
    requires LeastCost(w, l) && Shallowest(w, l) && 0 <= i < |l| && l[i] > maxLen
    ensures TooDeep(w, maxLen)
  {
    hide LeastCost;
  }

  lemma PacksSame(v: seq<int>, weight: seq<int>, w: seq<int>)
    requires Packs(v, w) && |v| == |weight| && forall k :: 0 < k <= |w| ==> weight[k] == v[k]
    ensures Packs(weight, w)
  {
  }

  lemma {:induction false} LeafSumNonNegative(w: seq<int>, k: nat)
    requires k < |w| && forall i :: 0 < i <= k ==> Weight(w[i]) >= 1
    ensures LeafSum(w, k) >= 0
  {
    if k > 0 { LeafSumNonNegative(w, k - 1); }
  }

  lemma LeavesNonNegative(w: seq<int>, alpha: nat)
    requires Leaves(w, alpha)
    ensures LeafSum(w, alpha) >= 0
  {
    LeafSumNonNegative(w, alpha);
  }

  lemma LeavesSame(w: seq<int>, v: seq<int>, alpha: nat)
    requires Leaves(w, alpha) && |w| == |v| && forall k :: 0 < k <= alpha ==> v[k] == w[k]
    ensures Leaves(v, alpha) && LeafSum(v, alpha) == LeafSum(w, alpha)
  {
    LeafSumSame(w, v, alpha);
  }

  /** The compressor's call meets the conditions of MakeCodeLengths. */
  lemma CompressorLimit(alphaSize: nat)
    requires alphaSize <= MAX_ALPHA_SIZE
    ensures Fib(17 + 3) > 2 * alphaSize
  {
    FibValues();
  }
}
