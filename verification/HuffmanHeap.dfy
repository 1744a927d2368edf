/**
  dep/bzip2/huffman.c, UPHEAP and DOWNHEAP (lines 33-59): a binary heap of nodes in positions
  1, ..., n of an array, ordered by weight, with the node 0 of weight 0 as sentinel in position 0.
*/
module HuffmanHeap {

  ghost predicate Heaped(h: seq<int>, w: seq<int>, n: int) {
    && 0 <= n < |h| && |w| > 0 && h[0] == 0 && w[0] == 0
    && (forall i :: 1 <= i <= n ==> 0 < h[i] < |w| && w[h[i]] > 0)
    && (forall i, j :: 1 <= i < j <= n ==> h[i] != h[j])
  }

  ghost predicate Below(h: seq<int>, w: seq<int>, p: int, i: int)
    requires 0 <= p < |h| && 0 <= i < |h| && 0 <= h[p] < |w| && 0 <= h[i] < |w|
  {
    w[h[p]] <= w[h[i]]
  }

  /** No node is lighter than its parent, except possibly the one at `zz`. */
  ghost predicate OrderedBut(h: seq<int>, w: seq<int>, n: int, zz: int)
    requires Heaped(h, w, n)
  {
    forall i :: 2 <= i <= n && i != zz ==> Below(h, w, i / 2, i)
  }

  ghost predicate Ordered(h: seq<int>, w: seq<int>, n: int)
    requires Heaped(h, w, n)
  {
    OrderedBut(h, w, n, 0)
  }

  ghost predicate Has(h: seq<int>, n: int, x: int) {
    exists i :: 1 <= i <= n && i < |h| && h[i] == x
  }

  function Swapped(h: seq<int>, i: int, j: int): seq<int>
    requires 0 <= i < |h| && 0 <= j < |h|
  {
    h[i := h[j]][j := h[i]]
  }

  lemma SwapHas(h: seq<int>, n: int, i: int, j: int, x: int)
    requires 1 <= i <= n < |h| && 1 <= j <= n
    ensures Has(Swapped(h, i, j), n, x) <==> Has(h, n, x)
  {
    var g := Swapped(h, i, j);
    if Has(h, n, x) {
      var k :| 1 <= k <= n && h[k] == x;
      assert g[if k == i then j else if k == j then i else k] == x;
    }
    if Has(g, n, x) {
      var k :| 1 <= k <= n && g[k] == x;
      assert h[if k == i then j else if k == j then i else k] == x;
    }
  }

  lemma SwapHeaped(h: seq<int>, w: seq<int>, n: int, i: int, j: int)
    requires Heaped(h, w, n) && 1 <= i <= n && 1 <= j <= n
    ensures Heaped(Swapped(h, i, j), w, n)
  {
  }

  // ----- UPHEAP -----

  /** The node at zz may be lighter than its parent; its children are not lighter than that parent. */
  ghost predicate Rising(h: seq<int>, w: seq<int>, n: int, zz: int) {
    && Heaped(h, w, n) && 1 <= zz <= n && OrderedBut(h, w, n, zz)
    && (zz >= 2 ==> forall i :: 2 <= i <= n && i / 2 == zz ==> Below(h, w, zz / 2, i))
  }

  lemma RisingStep(h: seq<int>, w: seq<int>, n: int, zz: int)
    requires Rising(h, w, n, zz) && zz >= 2 && w[h[zz]] < w[h[zz / 2]]
    ensures Rising(Swapped(h, zz, zz / 2), w, n, zz / 2)
  {
    var g, p := Swapped(h, zz, zz / 2), zz / 2;
    SwapHeaped(h, w, n, zz, p);
    forall i | 2 <= i <= n && i != p ensures Below(g, w, i / 2, i) {
      if i != zz { assert Below(h, w, i / 2, i); }
      if i / 2 == zz { assert Below(h, w, p, i); }
    }
    if p >= 2 {
      assert Below(h, w, p / 2, p);
      forall i | 2 <= i <= n && i / 2 == p ensures Below(g, w, p / 2, i) {
        if i != zz { assert Below(h, w, i / 2, i); }
      }
    }
  }

  lemma RisingDone(h: seq<int>, w: seq<int>, n: int, zz: int)
    requires Rising(h, w, n, zz) && w[h[zz]] >= w[h[zz / 2]]
    ensures Ordered(h, w, n)
  {
    forall i | 2 <= i <= n ensures Below(h, w, i / 2, i) {}
  }

  lemma RisingFacts(h: seq<int>, w: seq<int>, n: int, zz: int)
    requires Rising(h, w, n, zz)
    ensures 1 <= zz <= n < |h| && 0 < h[zz] < |w| && 0 <= h[zz / 2] < |w|
    ensures Heaped(h, w, n) && (zz == 1 ==> w[h[zz / 2]] <= w[h[zz]])
  {
  }

  method UpHeap(heap: array<int>, weight: array<int>, z: int, ghost w: seq<int>)
    requires heap != weight && 0 < |w| <= weight.Length && weight[..|w|] == w
    requires Rising(heap[..], w, z, z)
    modifies heap
    ensures Heaped(heap[..], w, z) && Ordered(heap[..], w, z)
    ensures forall x :: Has(heap[..], z, x) <==> old(Has(heap[..], z, x))
  {
    hide Rising, Heaped, Ordered, OrderedBut, Has;
    ghost var h0 := heap[..];
    ghost var g := h0;
    RisingFacts(g, w, z, z);
    var zz := z;
    var tmp := heap[zz];
    assert weight[tmp] == w[tmp];
    while weight[tmp] < weight[heap[zz / 2]]
      invariant 1 <= zz <= z < |g| && 0 < tmp < |w| && Rising(g, w, z, zz)
      invariant heap.Length == |g| && g[zz] == tmp && heap[..][zz := tmp] == g
      invariant 0 <= heap[zz / 2] < |w| && heap[zz / 2] == g[zz / 2]
      invariant forall x :: Has(g, z, x) <==> Has(h0, z, x)
      decreases zz
    {
      RisingFacts(g, w, z, zz);
      assert weight[heap[zz / 2]] == w[g[zz / 2]];
      RisingStep(g, w, z, zz);
      forall x ensures Has(Swapped(g, zz, zz / 2), z, x) <==> Has(g, z, x) {
        SwapHas(g, z, zz, zz / 2, x);
      }
      g := Swapped(g, zz, zz / 2);
      heap[zz] := heap[zz / 2];
      zz := zz / 2;
      assert heap[..][zz := tmp] == g;
      RisingFacts(g, w, z, zz);
      assert heap[zz / 2] == heap[..][zz := tmp][zz / 2];
    }
    assert weight[heap[zz / 2]] == w[g[zz / 2]];
    heap[zz] := tmp;
    assert heap[..] == g;
    RisingFacts(g, w, z, zz);
    RisingDone(g, w, z, zz);
  }

  // ----- DOWNHEAP -----

  /** The node at zz may be heavier than its children; those are not lighter than its parent. */
  ghost predicate Sinking(h: seq<int>, w: seq<int>, n: int, zz: int) {
    && Heaped(h, w, n) && 1 <= zz < |h|
    && (forall i :: 2 <= i <= n && i / 2 != zz ==> Below(h, w, i / 2, i))
    && (zz >= 2 ==> forall i :: 2 <= i <= n && i / 2 == zz ==> Below(h, w, zz / 2, i))
  }

  lemma SinkingStep(h: seq<int>, w: seq<int>, n: int, zz: int, yy: int)
    requires Sinking(h, w, n, zz) && zz <= n && 2 <= yy <= n && yy / 2 == zz
    requires w[h[yy]] <= w[h[zz]] && forall i :: 2 <= i <= n && i / 2 == zz ==> w[h[yy]] <= w[h[i]]
    ensures Sinking(Swapped(h, zz, yy), w, n, yy)
  {
    var g := Swapped(h, zz, yy);
    SwapHeaped(h, w, n, zz, yy);
    forall i | 2 <= i <= n && i / 2 != yy ensures Below(g, w, i / 2, i) {
      if i / 2 == zz {
        assert w[h[yy]] <= w[h[i]];
      } else if i == zz {
        assert Below(h, w, zz / 2, yy);
      } else {
        assert Below(h, w, i / 2, i);
      }
    }
    forall i | 2 <= i <= n && i / 2 == yy ensures Below(g, w, yy / 2, i) {
      assert Below(h, w, i / 2, i);
    }
  }

  lemma SinkingDone(h: seq<int>, w: seq<int>, n: int, zz: int)
    requires Sinking(h, w, n, zz)
    requires forall i :: 2 <= i <= n && i / 2 == zz ==> Below(h, w, zz, i)
    ensures Ordered(h, w, n)
  {
    forall i | 2 <= i <= n ensures Below(h, w, i / 2, i) {}
  }

  /** The lighter child of zz. */
  method LighterChild(heap: array<int>, weight: array<int>, nHeap: int, yy0: int) returns (yy: int)
    requires 2 <= yy0 <= nHeap < heap.Length && yy0 % 2 == 0
    requires forall i :: 1 <= i <= nHeap ==> 0 <= heap[i] < weight.Length
    ensures yy0 <= yy <= nHeap && yy / 2 == yy0 / 2
    ensures forall i :: 2 <= i <= nHeap && i / 2 == yy0 / 2 ==> weight[heap[yy]] <= weight[heap[i]]
  {
    yy := yy0;
    if yy < nHeap && weight[heap[yy + 1]] < weight[heap[yy]] { yy := yy + 1; }
    forall i | 2 <= i <= nHeap && i / 2 == yy0 / 2 ensures weight[heap[yy]] <= weight[heap[i]] {
      assert i == yy0 || i == yy0 + 1;
    }
  }

  lemma SinkingFacts(h: seq<int>, w: seq<int>, n: int, zz: int)
    requires Sinking(h, w, n, zz)
    ensures 1 <= zz < |h| && 0 <= n < |h| && Heaped(h, w, n)
    ensures forall i :: 1 <= i <= n ==> 0 < h[i] < |w|
  {
  }

  method DownHeap(heap: array<int>, weight: array<int>, nHeap: int, ghost w: seq<int>)
    requires heap != weight && 0 < |w| <= weight.Length && weight[..|w|] == w
    requires Sinking(heap[..], w, nHeap, 1) && 0 < heap[1] < |w|
    modifies heap
    ensures Heaped(heap[..], w, nHeap) && Ordered(heap[..], w, nHeap)
    ensures forall x :: Has(heap[..], nHeap, x) <==> old(Has(heap[..], nHeap, x))
  {
    hide Sinking, Heaped, Ordered, OrderedBut, Has;
    ghost var h0 := heap[..];
    ghost var g := h0;
    SinkingFacts(g, w, nHeap, 1);
    var zz := 1;
    var tmp := heap[zz];
    while true
      invariant 1 <= zz < |g| && 0 < tmp < |w| && (zz > 1 ==> zz <= nHeap) && Sinking(g, w, nHeap, zz)
      invariant heap.Length == |g| && g[zz] == tmp && heap[..][zz := tmp] == g && 0 < heap[zz] < |w|
      invariant forall x :: Has(g, nHeap, x) <==> Has(h0, nHeap, x)
      decreases |g| - zz
    {
      SinkingFacts(g, w, nHeap, zz);
      var yy := zz * 2;
      if yy > nHeap { break; }
      forall i | 1 <= i <= nHeap && i != zz ensures heap[i] == g[i] && weight[heap[i]] == w[g[i]] {
        assert heap[i] == heap[..][zz := tmp][i];
      }
      yy := LighterChild(heap, weight, nHeap, yy);
      assert weight[tmp] == w[tmp];
      if weight[tmp] < weight[heap[yy]] { break; }
      SinkingStep(g, w, nHeap, zz, yy);
      forall x ensures Has(Swapped(g, zz, yy), nHeap, x) <==> Has(g, nHeap, x) {
        SwapHas(g, nHeap, zz, yy, x);
      }
      g := Swapped(g, zz, yy);
      heap[zz] := heap[yy];
      zz := yy;
      assert heap[..][zz := tmp] == g;
    }
    heap[zz] := tmp;
    assert heap[..] == g;
    SinkingFacts(g, w, nHeap, zz);
    forall i | 2 <= i <= nHeap && i / 2 == zz ensures Below(g, w, zz, i) {
      assert weight[heap[i]] == w[g[i]] && weight[tmp] == w[tmp];
    }
    SinkingDone(g, w, nHeap, zz);
  }

  // ----- the heap as a priority queue -----

  lemma {:induction false} TopLightest(h: seq<int>, w: seq<int>, n: int, i: int)
    requires Heaped(h, w, n) && Ordered(h, w, n) && 1 <= i <= n
    ensures w[h[1]] <= w[h[i]]
    decreases i
  {
    if i > 1 {
      TopLightest(h, w, n, i / 2);
      assert Below(h, w, i / 2, i);
    }
  }

  lemma TopRemoved(h: seq<int>, w: seq<int>, n: int)
    requires Heaped(h, w, n) && Ordered(h, w, n) && n >= 1
    ensures 0 < h[1] < |w| && 0 < h[n] < |w| && Has(h, n, h[1])
    ensures Sinking(h[1 := h[n]], w, n - 1, 1)
    ensures forall x :: Has(h, n, x) ==> 0 < x < |w| && w[h[1]] <= w[x]
    ensures forall x :: Has(h[1 := h[n]], n - 1, x) <==> Has(h, n, x) && x != h[1]
  {
    var g := h[1 := h[n]];
    forall i | 2 <= i <= n - 1 && i / 2 != 1 ensures Below(g, w, i / 2, i) {
      assert Below(h, w, i / 2, i);
    }
    forall x | Has(h, n, x) ensures 0 < x < |w| && w[h[1]] <= w[x] {
      var i :| 1 <= i <= n && h[i] == x;
      TopLightest(h, w, n, i);
    }
    forall x ensures Has(g, n - 1, x) <==> Has(h, n, x) && x != h[1] {
      if Has(g, n - 1, x) {
        var i :| 1 <= i <= n - 1 && g[i] == x;
        assert h[if i == 1 then n else i] == x;
      }
      if Has(h, n, x) && x != h[1] {
        var i :| 1 <= i <= n && h[i] == x;
        assert g[if i == n then 1 else i] == x;
      }
    }
  }

  /** The top is taken out, the last entry put in its place and moved down. */
  method PopLightest(heap: array<int>, weight: array<int>, nHeap0: int, ghost w: seq<int>)
    returns (n1: int, nHeap: int)
    requires heap != weight && 0 < |w| <= weight.Length && weight[..|w|] == w
    requires Heaped(heap[..], w, nHeap0) && Ordered(heap[..], w, nHeap0) && nHeap0 >= 1
    modifies heap
    ensures nHeap == nHeap0 - 1 && 0 < n1 < |w| && old(Has(heap[..], nHeap0, n1))
    ensures Heaped(heap[..], w, nHeap) && Ordered(heap[..], w, nHeap)
    ensures forall x :: old(Has(heap[..], nHeap0, x)) ==> 0 < x < |w| && w[n1] <= w[x]
    ensures forall x :: Has(heap[..], nHeap, x) <==> old(Has(heap[..], nHeap0, x)) && x != n1
  {
    TopRemoved(heap[..], w, nHeap0);
    hide Heaped, Ordered, OrderedBut, Has, Sinking;
    ghost var h := heap[..];
    n1 := heap[1];
    heap[1] := heap[nHeap0];
    assert heap[..] == h[1 := h[nHeap0]];
    nHeap := nHeap0 - 1;
    DownHeap(heap, weight, nHeap, w);
  }

  lemma PushRising(h: seq<int>, w: seq<int>, n: int, x: int)
    requires Heaped(h, w, n) && Ordered(h, w, n) && n + 1 < |h| && 0 < x < |w| && w[x] > 0 && !Has(h, n, x)
    ensures Rising(h[n + 1 := x], w, n + 1, n + 1)
    ensures forall y :: Has(h[n + 1 := x], n + 1, y) <==> Has(h, n, y) || y == x
  {
    var g := h[n + 1 := x];
    forall i | 2 <= i <= n + 1 && i != n + 1 ensures Below(g, w, i / 2, i) {
      assert Below(h, w, i / 2, i);
    }
    assert g[n + 1] == x;
    forall y ensures Has(g, n + 1, y) <==> Has(h, n, y) || y == x {
      if Has(g, n + 1, y) && y != x {
        var i :| 1 <= i <= n + 1 && g[i] == y;
        assert h[i] == y;
      }
      if Has(h, n, y) {
        var i :| 1 <= i <= n && h[i] == y;
        assert g[i] == y;
      }
    }
  }

  /** A node is put behind the last entry and moved up. */
  method Push(heap: array<int>, weight: array<int>, nHeap0: int, x: int, ghost w: seq<int>) returns (nHeap: int)
    requires heap != weight && 0 < |w| <= weight.Length && weight[..|w|] == w
    requires Heaped(heap[..], w, nHeap0) && Ordered(heap[..], w, nHeap0) && nHeap0 + 1 < heap.Length
    requires 0 < x < |w| && w[x] > 0 && !Has(heap[..], nHeap0, x)
    modifies heap
    ensures nHeap == nHeap0 + 1 && Heaped(heap[..], w, nHeap) && Ordered(heap[..], w, nHeap)
    ensures forall y :: Has(heap[..], nHeap, y) <==> old(Has(heap[..], nHeap0, y)) || y == x
  {
    PushRising(heap[..], w, nHeap0, x);
    hide Heaped, Ordered, OrderedBut, Has, Rising;
    ghost var h := heap[..];
    nHeap := nHeap0 + 1;
    heap[nHeap] := x;
    assert heap[..] == h[nHeap0 + 1 := x];
    UpHeap(heap, weight, nHeap, w);
  }
}
