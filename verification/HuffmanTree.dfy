/**
  The forest that BZ2_hbMakeCodeLengths (dep/bzip2/huffman.c, lines 63-148) builds in its parent
  and weight arrays: the depth of a tree is bounded by the Fibonacci growth of its weight, and the
  leaf depths of the finished tree satisfy Kraft's equation exactly.
*/
module HuffmanTree {
  import opened Common

  function Fib(n: nat): nat {
    if n == 0 then 0 else if n == 1 then 1 else Fib(n - 2) + Fib(n - 1)
  }

  lemma {:induction false} FibMonotone(m: nat, n: nat)
    requires m <= n
    ensures Fib(m) <= Fib(n)
    decreases n
  {
    if m < n { FibMonotone(m, n - 1); }
  }

  // ----- packed weights -----

  /** WEIGHTOF(w) >> 8. */
  function Weight(w: int): int {
    w / 256
  }

  /** DEPTHOF(w). */
  function Depth(w: int): nat {
    w % 256
  }

  /** ADDWEIGHTS: the sum of the weights, and one more than the greater depth in the low byte. */
  function AddWeights(w1: int, w2: int): (w: int)
    requires w1 >= 0 && w2 >= 0 && Depth(w1) < 255 && Depth(w2) < 255
    ensures Weight(w) == Weight(w1) + Weight(w2) && Depth(w) == 1 + Max(Depth(w1), Depth(w2))
  {
    256 * (Weight(w1) + Weight(w2)) + (1 + Max(Depth(w1), Depth(w2)))
  }

  /** Comparing packed words compares weights first. */
  lemma PackedOrder(w1: int, w2: int)
    requires w1 <= w2
    ensures Weight(w1) <= Weight(w2)
  {
  }

  // ----- the forest -----

  /**
    Nodes are 1, ..., |parent| - 1, the leaves first. left and right name the two children of an
    inner node; the source only keeps the parents.
  */
  datatype Forest = Forest(parent: seq<int>, weight: seq<int>, left: seq<int>, right: seq<int>) {
    ghost predicate Root(k: int) {
      0 < k < |parent| && parent[k] < 0
    }
  }

  ghost predicate Inner(t: Forest, m: int)
    requires |t.parent| == |t.weight| == |t.left| == |t.right| && 0 < m < |t.parent|
  {
    && 0 < t.left[m] < m && 0 < t.right[m] < m && t.left[m] != t.right[m]
    && t.parent[t.left[m]] == m == t.parent[t.right[m]]
    && Weight(t.weight[m]) == Weight(t.weight[t.left[m]]) + Weight(t.weight[t.right[m]])
    && Depth(t.weight[m]) == 1 + Max(Depth(t.weight[t.left[m]]), Depth(t.weight[t.right[m]]))
  }

  ghost predicate Linked(t: Forest, k: int, alpha: nat)
    requires |t.parent| == |t.weight| == |t.left| == |t.right| && 0 < k < |t.parent|
  {
    var m := t.parent[k];
    m >= 0 ==> k < m < |t.parent| && m > alpha && (t.left[m] == k || t.right[m] == k)
  }

  ghost predicate WellFormed(t: Forest, alpha: nat) {
    && |t.parent| == |t.weight| == |t.left| == |t.right| > alpha >= 1
    && (forall k :: 0 < k < |t.parent| ==> Weight(t.weight[k]) >= 1 && Linked(t, k, alpha))
    && (forall k :: 0 < k <= alpha ==> Depth(t.weight[k]) == 0)
    && (forall m :: alpha < m < |t.parent| ==> Inner(t, m))
  }

  /** Merging two roots under a new node. */
  function Merge(t: Forest, n1: int, n2: int, w: int): Forest
    requires 0 <= n1 < |t.parent| && 0 <= n2 < |t.parent|
  {
    var m := |t.parent|;
    Forest(t.parent[n1 := m][n2 := m] + [-1], t.weight + [w], t.left + [n1], t.right + [n2])
  }

  lemma MergeRoots(t: Forest, n1: int, n2: int, w: int)
    requires |t.parent| == |t.weight| && t.Root(n1) && t.Root(n2) && n1 != n2
    ensures var s := Merge(t, n1, n2, w);
            && |s.parent| == |s.weight| == |t.parent| + 1
            && (forall k :: 0 < k < |t.parent| ==> s.weight[k] == t.weight[k]) && s.weight[|t.parent|] == w
            && forall k :: s.Root(k) <==> (t.Root(k) && k != n1 && k != n2) || k == |t.parent|
  {
  }

  lemma MergeWellFormed(t: Forest, alpha: nat, n1: int, n2: int, w: int)
    requires WellFormed(t, alpha) && t.Root(n1) && t.Root(n2) && n1 != n2
    requires Weight(w) == Weight(t.weight[n1]) + Weight(t.weight[n2])
    requires Depth(w) == 1 + Max(Depth(t.weight[n1]), Depth(t.weight[n2]))
    ensures WellFormed(Merge(t, n1, n2, w), alpha)
  {
    var s, m := Merge(t, n1, n2, w), |t.parent|;
    forall x | alpha < x < |s.parent| ensures Inner(s, x) {
      if x < m { assert Inner(t, x); }
    }
    forall k | 0 < k < |s.parent| ensures Weight(s.weight[k]) >= 1 && Linked(s, k, alpha) {
      if k < m { assert Linked(t, k, alpha); }
    }
  }

  /**
    Every root weighs at least `low`, the weight of the heavier node of the last merge; so does
    every node whose depth a root still owes to a child.
  */
  ghost predicate Grown(t: Forest, low: nat) {
    && |t.parent| == |t.weight|
    && forall k :: t.Root(k) ==>
         && Weight(t.weight[k]) >= low
         && Weight(t.weight[k]) >= Fib(Depth(t.weight[k]) + 2)
         && low >= Fib(Depth(t.weight[k]) + 1)
  }

  /** Merging the two lightest roots keeps the Fibonacci bound. */
  lemma MergeGrown(t: Forest, n1: int, n2: int, w: int, low: nat)
    requires t.Root(n1) && t.Root(n2) && n1 != n2 && Grown(t, low)
    requires Weight(t.weight[n1]) <= Weight(t.weight[n2])
    requires forall k :: t.Root(k) && k != n1 && k != n2 ==> Weight(t.weight[n2]) <= Weight(t.weight[k])
    requires Weight(w) == Weight(t.weight[n1]) + Weight(t.weight[n2])
    requires Depth(w) == 1 + Max(Depth(t.weight[n1]), Depth(t.weight[n2]))
    ensures Grown(Merge(t, n1, n2, w), Weight(t.weight[n2]))
  {
    var s, m := Merge(t, n1, n2, w), |t.parent|;
    MergeRoots(t, n1, n2, w);
    var high := Weight(t.weight[n2]);
    forall k | s.Root(k)
      ensures && Weight(s.weight[k]) >= high
              && Weight(s.weight[k]) >= Fib(Depth(s.weight[k]) + 2)
              && high >= Fib(Depth(s.weight[k]) + 1)
    {
      if k == m {
        var d1, d2 := Depth(t.weight[n1]), Depth(t.weight[n2]);
        assert Fib(Max(d1, d2) + 3) == Fib(Max(d1, d2) + 1) + Fib(Max(d1, d2) + 2);
      } else {
        assert t.Root(k);
      }
    }
  }

  // ----- the total weight -----

  /** The sum of the weights of the roots among nodes 1, ..., k. */
  ghost function RootSum(t: Forest, k: nat): int
    requires k < |t.parent| == |t.weight|
  {
    if k == 0 then 0 else RootSum(t, k - 1) + if t.parent[k] < 0 then Weight(t.weight[k]) else 0
  }

  lemma {:induction false} MergeSumUpTo(t: Forest, n1: int, n2: int, w: int, k: nat)
    requires k < |t.parent| == |t.weight| && t.Root(n1) && t.Root(n2) && n1 != n2
    ensures RootSum(Merge(t, n1, n2, w), k) == RootSum(t, k)
            - (if n1 <= k then Weight(t.weight[n1]) else 0) - (if n2 <= k then Weight(t.weight[n2]) else 0)
  {
    if k > 0 { MergeSumUpTo(t, n1, n2, w, k - 1); }
  }

  lemma MergeSum(t: Forest, n1: int, n2: int, w: int)
    requires |t.parent| == |t.weight| && t.Root(n1) && t.Root(n2) && n1 != n2
    requires Weight(w) == Weight(t.weight[n1]) + Weight(t.weight[n2])
    ensures RootSum(Merge(t, n1, n2, w), |t.parent|) == RootSum(t, |t.parent| - 1)
  {
    MergeSumUpTo(t, n1, n2, w, |t.parent| - 1);
  }

  lemma {:induction false} RootBelowSum(t: Forest, alpha: nat, k: nat, r: int)
    requires WellFormed(t, alpha) && k < |t.parent| && t.Root(r) && r <= k
    ensures Weight(t.weight[r]) <= RootSum(t, k)
  {
    SumNonNegative(t, alpha, k - 1);
    if r < k { RootBelowSum(t, alpha, k - 1, r); }
  }

  lemma {:induction false} SumNonNegative(t: Forest, alpha: nat, k: nat)
    requires WellFormed(t, alpha) && k < |t.parent|
    ensures RootSum(t, k) >= 0
  {
    if k > 0 { SumNonNegative(t, alpha, k - 1); }
  }

  // ----- levels: the code lengths -----

  /** Parents come after their children. */
  ghost predicate Ascending(parent: seq<int>) {
    forall i :: 0 < i < |parent| && parent[i] >= 0 ==> i < parent[i] < |parent|
  }

  /** How many steps from node k up to its root: the loop that fills `len`. */
  ghost function Level(parent: seq<int>, k: int): nat
    requires Ascending(parent) && 0 < k < |parent|
    decreases |parent| - k
  {
    if parent[k] < 0 then 0 else 1 + Level(parent, parent[k])
  }

  lemma WellFormedAscending(t: Forest, alpha: nat)
    requires WellFormed(t, alpha)
    ensures Ascending(t.parent)
  {
    forall i | 0 < i < |t.parent| && t.parent[i] >= 0 ensures i < t.parent[i] < |t.parent| {
      assert Linked(t, i, alpha);
    }
  }

  /** A single tree: only the last node is a root. */
  ghost predicate Tree(t: Forest, alpha: nat) {
    && WellFormed(t, alpha) && |t.parent| >= alpha + 2
    && forall k :: 0 < k < |t.parent| ==> (t.parent[k] < 0 <==> k == |t.parent| - 1)
  }

  /** The depth byte of the root bounds every code length. */
  lemma {:induction false} LevelBound(t: Forest, alpha: nat, k: nat)
    requires Tree(t, alpha) && Ascending(t.parent) && 0 < k < |t.parent|
    ensures Level(t.parent, k) + Depth(t.weight[k]) <= Depth(t.weight[|t.parent| - 1])
    ensures k < |t.parent| - 1 ==> Level(t.parent, k) >= 1
    decreases |t.parent| - k
  {
    if t.parent[k] >= 0 {
      var m := t.parent[k];
      assert Linked(t, k, alpha) && Inner(t, m);
      LevelBound(t, alpha, m);
    }
  }

  /** The whole tree's weight is at least a Fibonacci number of its depth. */
  lemma TreeDepth(t: Forest, alpha: nat, low: nat)
    requires Tree(t, alpha) && Grown(t, low)
    ensures Fib(Depth(t.weight[|t.parent| - 1]) + 2) <= RootSum(t, |t.parent| - 1)
  {
    var r := |t.parent| - 1;
    assert t.Root(r);
    RootBelowSum(t, alpha, r, r);
  }

  // ----- Kraft's equation -----

  /** 2^(d - level) summed over the nodes 1, ..., k whose parent is after m (or absent). */
  ghost function Frontier(parent: seq<int>, d: nat, m: int, k: nat): int
    requires k < |parent| && Ascending(parent)
  {
    if k == 0 then 0
    else Frontier(parent, d, m, k - 1) + (if parent[k] < 0 || parent[k] > m then Share(parent, d, k) else 0)
  }

  ghost function Share(parent: seq<int>, d: nat, k: int): int
    requires Ascending(parent) && 0 < k < |parent|
  {
    if Level(parent, k) <= d then Pow2(d - Level(parent, k)) else 0
  }

  /** Lowering m by one lets the two children of node m in. */
  lemma {:induction false} FrontierLower(t: Forest, alpha: nat, d: nat, m: int, k: nat)
    requires Tree(t, alpha) && Ascending(t.parent) && alpha < m < |t.parent| && k < m && Inner(t, m)
    ensures Frontier(t.parent, d, m - 1, k) == Frontier(t.parent, d, m, k)
            + (if t.left[m] <= k then Share(t.parent, d, t.left[m]) else 0)
            + (if t.right[m] <= k then Share(t.parent, d, t.right[m]) else 0)
  {
    if k > 0 {
      FrontierLower(t, alpha, d, m, k - 1);
      if t.parent[k] == m { assert Linked(t, k, alpha); }
    }
  }

  /** The nodes crossing any level cut of the tree share out 2^d exactly. */
  lemma {:induction false} FrontierSum(t: Forest, alpha: nat, d: nat, m: int)
    requires Tree(t, alpha) && Ascending(t.parent) && alpha <= m < |t.parent|
    requires d >= Depth(t.weight[|t.parent| - 1])
    ensures Frontier(t.parent, d, m, m) == Pow2(d)
    decreases |t.parent| - m
  {
    var r := |t.parent| - 1;
    if m == r {
      FrontierTop(t, alpha, d, r - 1);
    } else {
      var x := m + 1;
      assert Inner(t, x);
      FrontierSum(t, alpha, d, x);
      FrontierLower(t, alpha, d, x, m);
      LevelBound(t, alpha, t.left[x]);
      assert Linked(t, x, alpha);
      assert Share(t.parent, d, x) == Share(t.parent, d, t.left[x]) + Share(t.parent, d, t.right[x]);
    }
  }

  /** With m the root, only the root itself counts. */
  lemma {:induction false} FrontierTop(t: Forest, alpha: nat, d: nat, k: nat)
    requires Tree(t, alpha) && Ascending(t.parent) && k < |t.parent| - 1
    ensures Frontier(t.parent, d, |t.parent| - 1, k) == 0
  {
    if k > 0 {
      FrontierTop(t, alpha, d, k - 1);
      assert Linked(t, k, alpha);
    }
  }

  /** Kraft's sum of a list of code lengths, scaled by 2^d. */
  ghost function Kraft(len: seq<int>, d: nat): int
    requires forall i :: 0 <= i < |len| ==> 0 <= len[i] <= d
  {
    if len == [] then 0 else Kraft(len[..|len| - 1], d) + Pow2(d - len[|len| - 1])
  }

  lemma {:induction false} KraftIsFrontier(t: Forest, alpha: nat, d: nat, len: seq<int>)
    requires Tree(t, alpha) && Ascending(t.parent) && |len| <= alpha < |t.parent|
    requires forall i :: 0 <= i < |len| ==> 0 <= len[i] <= d && len[i] == Level(t.parent, i + 1)
    ensures Kraft(len, d) == Frontier(t.parent, d, alpha, |len|)
  {
    if len != [] {
      var k := |len| - 1;
      KraftIsFrontier(t, alpha, d, len[..k]);
      assert Linked(t, k + 1, alpha);
    }
  }

  lemma {:induction false} KraftScale(len: seq<int>, d: nat, e: nat)
    requires forall i :: 0 <= i < |len| ==> 0 <= len[i] <= d
    ensures Kraft(len, d + e) == Kraft(len, d) * Pow2(e)
  {
    if len != [] {
      var k := |len| - 1;
      KraftScale(len[..k], d, e);
      Pow2Add(d - len[k], e);
      assert d - len[k] + e == d + e - len[k];
      Distribute(Kraft(len[..k], d), Pow2(d - len[k]), Pow2(e));
    }
  }

  lemma Distribute(a: int, b: int, c: int)
    ensures (a + b) * c == a * c + b * c
  {
  }

  /** The code lengths read off the finished tree are complete. */
  lemma KraftExact(t: Forest, alpha: nat, d: nat, len: seq<int>)
    requires Tree(t, alpha) && Ascending(t.parent) && |len| == alpha < |t.parent|
    requires forall i :: 0 <= i < |len| ==> 0 <= len[i] <= d && len[i] == Level(t.parent, i + 1)
    ensures Kraft(len, d) == Pow2(d)
  {
    var top := d + Depth(t.weight[|t.parent| - 1]);
    KraftIsFrontier(t, alpha, top, len);
    FrontierSum(t, alpha, top, alpha);
    KraftScale(len, d, top - d);
    Pow2Add(d, top - d);
    Cancel(Kraft(len, d), Pow2(d), Pow2(top - d));
  }

  lemma Cancel(a: int, b: int, c: int)
    requires c > 0 && a * c == b * c
    ensures a == b
  {
  }
}
