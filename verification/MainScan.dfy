/**
  dep/bzip2/blocksort.c, Step 2 of mainSort (lines 916-951), as a fact about lists of rotations:
  scanning the rotations of the big bucket ss in order, and listing their predecessors by first
  byte, gives every small bucket [c, ss] in order, the bucket [ss, ss] included, which the scan
  fills while reading it. The left scan (side -1) meets the rotations whose first byte other than
  ss is smaller, the right scan (side 1), from the other end, those where it is greater.
*/
module MainScan {
  import opened Common
  import opened Rotation
  import opened Counting
  import opened MainCompare
  import opened MainRadix

  /** The rotation that starts one byte earlier. */
  function Pred(n: nat, i: nat): (r: nat)
    requires i < n
    ensures r < n && Next(n, r) == i
  {
    if i == 0 then n - 1 else i - 1
  }

  lemma PredNext(n: nat, i: nat)
    requires i < n
    ensures Pred(n, Next(n, i)) == i
  {
  }

  /** How rotation r compares with the byte ss repeated, over h characters. */
  function Side(b: seq<Byte>, r: nat, ss: int, h: nat): (s: int)
    requires r < |b|
    ensures -1 <= s <= 1
    decreases h
  {
    if h == 0 then 0
    else if b[r] < ss then -1
    else if b[r] > ss then 1
    else Side(b, Next(|b|, r), ss, h - 1)
  }

  lemma {:induction false} SideMore(b: seq<Byte>, r: nat, ss: int, h: nat)
    requires r < |b|
    ensures Side(b, r, ss, h) != 0 ==> Side(b, r, ss, h + 1) == Side(b, r, ss, h)
    ensures Side(b, r, ss, h) == 0 && b[Adv(|b|, r, h)] == ss ==> Side(b, r, ss, h + 1) == 0
    decreases h
  {
    if h > 0 && b[r] == ss { SideMore(b, Next(|b|, r), ss, h - 1); }
    if h == 0 && b[r] == ss { assert Side(b, r, ss, 1) == Side(b, Next(|b|, r), ss, 0); }
  }

  lemma {:induction false} AdvShift(n: nat, i: nat, t: nat)
    requires i < n && t <= n
    ensures Adv(n, i, t) == Shift(n, i, t)
    decreases t
  {
    if t > 0 { AdvShift(n, Next(n, i), t - 1); }
  }

  /** Moving back over a byte ss does not change the side. */
  lemma SidePred(b: seq<Byte>, r: nat, ss: int)
    requires r < |b| && b[r] == ss
    ensures Side(b, r, ss, |b|) == Side(b, Next(|b|, r), ss, |b|)
  {
    var n, x := |b|, Next(|b|, r);
    SideMore(b, x, ss, n - 1);
    AdvShift(n, x, n - 1);
    assert Shift(n, x, n - 1) == r;
  }

  /** A rotation on the lower side comes before one on the upper side. */
  lemma {:induction false} SideOrder(b: seq<Byte>, x: nat, y: nat, ss: int, h: nat)
    requires x < |b| && y < |b| && Side(b, x, ss, h) < Side(b, y, ss, h)
    ensures Cmp(b, x, y, h) < 0
    decreases h
  {
    if b[x] == ss && b[y] == ss { SideOrder(b, Next(|b|, x), Next(|b|, y), ss, h - 1); }
  }

  /** Unless the block is ss throughout, every rotation is on one side. */
  lemma {:induction false} SideZero(b: seq<Byte>, r: nat, ss: int, h: nat, t: nat)
    requires r < |b| && Side(b, r, ss, h) == 0 && t < h
    ensures b[Adv(|b|, r, t)] == ss
    decreases h
  {
    if t > 0 { SideZero(b, Next(|b|, r), ss, h - 1, t - 1); }
  }

  lemma AllEqual(b: seq<Byte>, r: nat, ss: int, i: nat)
    requires r < |b| && Side(b, r, ss, |b|) == 0 && i < |b|
    ensures b[i] == ss
  {
    var n := |b|;
    var t := if i >= r then i - r else i + n - r;
    SideZero(b, r, ss, n, t);
    AdvShift(n, r, t);
    assert Shift(n, r, t) == i;
  }

  // ----- lists of rotations -----

  /** In scanning order: ascending for the left scan, descending for the right scan. */
  ghost predicate InOrder(b: seq<Byte>, side: int, x: nat, y: nat)
    requires x < |b| && y < |b|
  {
    if side < 0 then Leq(b, x, y) else Leq(b, y, x)
  }

  ghost predicate Rotations(b: seq<Byte>, w: seq<int>) {
    forall i :: 0 <= i < |w| ==> 0 <= w[i] < |b|
  }

  /** The predecessors that start with c, in order. */
  function Preds(b: seq<Byte>, w: seq<int>, c: int): (p: seq<int>)
    requires Rotations(b, w)
    ensures Rotations(b, p)
  {
    if w == [] then []
    else
      var k := Pred(|b|, w[|w| - 1]);
      Preds(b, w[..|w| - 1], c) + if b[k] == c then [k] else []
  }

  lemma PredsNext(b: seq<Byte>, w: seq<int>, m: nat, c: int)
    requires Rotations(b, w) && m < |w|
    ensures Rotations(b, w[..m]) && Rotations(b, w[..m + 1])
    ensures var k := Pred(|b|, w[m]); Preds(b, w[..m + 1], c) == Preds(b, w[..m], c) + if b[k] == c then [k] else []
  {
    assert w[..m + 1][..m] == w[..m];
  }

  /** Every listed predecessor comes from an entry, later ones from later entries. */
  lemma {:induction false} PredsFrom(b: seq<Byte>, w: seq<int>, c: int, i: nat) returns (x: nat)
    requires Rotations(b, w) && i < |Preds(b, w, c)|
    ensures x < |w| && Preds(b, w, c)[i] == Pred(|b|, w[x]) && b[Preds(b, w, c)[i]] == c
    ensures i == |Preds(b, w[..x], c)|
  {
    var m := |w| - 1;
    var p := Preds(b, w[..m], c);
    if i < |p| {
      x := PredsFrom(b, w[..m], c, i);
      assert w[..m][..x] == w[..x];
    } else {
      x := m;
    }
  }

  lemma {:induction false} PredsMonotone(b: seq<Byte>, w: seq<int>, c: int, x: nat, y: nat)
    requires Rotations(b, w) && x <= y <= |w|
    ensures Rotations(b, w[..x]) && Rotations(b, w[..y]) && |Preds(b, w[..x], c)| <= |Preds(b, w[..y], c)|
    decreases y
  {
    if x < y {
      PredsMonotone(b, w, c, x, y - 1);
      PredsNext(b, w, y - 1, c);
    }
  }

  /** Every entry's predecessor is listed under its first byte. */
  lemma {:induction false} PredsHas(b: seq<Byte>, w: seq<int>, x: nat)
    requires Rotations(b, w) && x < |w|
    ensures Pred(|b|, w[x]) in Preds(b, w, b[Pred(|b|, w[x])])
  {
    var m := |w| - 1;
    if x < m { PredsHas(b, w[..m], x); }
  }

  /** A list of distinct rotations that start with ss and lie on the given side, in scanning order. */
  ghost predicate Good(b: seq<Byte>, ss: int, side: int, w: seq<int>) {
    && Rotations(b, w)
    && (forall i :: 0 <= i < |w| ==> b[w[i]] == ss && Side(b, w[i], ss, |b|) == side)
    && (forall i, j :: 0 <= i < j < |w| ==> w[i] != w[j] && InOrder(b, side, w[i], w[j]))
  }

  /** Predecessors with the same first byte are in the order of what follows them. */
  lemma PredsOrder(b: seq<Byte>, side: int, x: nat, y: nat)
    requires |b| > 0 && x < |b| && y < |b| && InOrder(b, side, x, y) && b[Pred(|b|, x)] == b[Pred(|b|, y)]
    ensures InOrder(b, side, Pred(|b|, x), Pred(|b|, y))
  {
    assert Pred(|b|, x) == Unshift(|b|, x, 1) && Pred(|b|, y) == Unshift(|b|, y, 1);
    if side < 0 { CmpBack(b, x, y); } else { CmpBack(b, y, x); }
  }

  /** What a list of predecessors is like: distinct, with first byte c and second byte ss, in order. */
  ghost predicate Listed(b: seq<Byte>, ss: int, side: int, c: int, p: seq<int>) {
    && Rotations(b, p)
    && (forall i :: 0 <= i < |p| ==> b[p[i]] == c && b[Next(|b|, p[i])] == ss && Side(b, Next(|b|, p[i]), ss, |b|) == side)
    && (forall i, j :: 0 <= i < j < |p| ==> p[i] != p[j] && InOrder(b, side, p[i], p[j]))
  }

  lemma PredsListed(b: seq<Byte>, ss: int, side: int, w: seq<int>, c: int)
    requires Good(b, ss, side, w)
    ensures Listed(b, ss, side, c, Preds(b, w, c))
  {
    hide Leq, Side, InOrder;
    var p := Preds(b, w, c);
    forall i | 0 <= i < |p|
      ensures b[p[i]] == c && b[Next(|b|, p[i])] == ss && Side(b, Next(|b|, p[i]), ss, |b|) == side
    {
      var x := PredsFrom(b, w, c, i);
    }
    forall i, j | 0 <= i < j < |p| ensures p[i] != p[j] && InOrder(b, side, p[i], p[j]) {
      var x := PredsFrom(b, w, c, i);
      var y := PredsFrom(b, w, c, j);
      if y <= x { PredsMonotone(b, w, c, y, x); }
      assert Next(|b|, p[i]) == w[x] && Next(|b|, p[j]) == w[y] && w[x] != w[y];
      PredsOrder(b, side, w[x], w[y]);
    }
  }

  // ----- the window of the scan -----

  /** Where the scan starts: rotations that leave ss at once. */
  ghost predicate Base(b: seq<Byte>, ss: int, side: int, w0: seq<int>) {
    Good(b, ss, side, w0) && forall i :: 0 <= i < |w0| ==> b[Next(|b|, w0[i])] != ss
  }

  /** The window after m of its entries have been scanned: what was there, and the predecessors found that start with ss. */
  ghost predicate Growing(b: seq<Byte>, ss: int, side: int, w0: seq<int>, w: seq<int>, m: nat) {
    && m <= |w| && Base(b, ss, side, w0) && Good(b, ss, side, w)
    && w == w0 + Preds(b, w[..m], ss)
  }

  lemma GrowStart(b: seq<Byte>, ss: int, side: int, w0: seq<int>)
    requires Base(b, ss, side, w0)
    ensures Growing(b, ss, side, w0, w0, 0)
  {
    assert w0 + [] == w0;
  }

  /** The predecessor found is new to the window. */
  lemma NewInWindow(b: seq<Byte>, ss: int, side: int, w0: seq<int>, w: seq<int>, m: nat, i: nat)
    requires Growing(b, ss, side, w0, w, m) && m < |w| && i < |w| && b[Pred(|b|, w[m])] == ss
    ensures w[i] != Pred(|b|, w[m])
  {
    hide Leq, Side, InOrder;
    var k := Pred(|b|, w[m]);
    if i < |w0| {
      assert w[i] == w0[i] && b[Next(|b|, w0[i])] != ss;
    } else {
      var x := PredsFrom(b, w[..m], ss, i - |w0|);
      assert w[i] == Pred(|b|, w[x]) && w[x] != w[m];
    }
  }

  /** It comes behind everything in the window. */
  lemma BehindWindow(b: seq<Byte>, ss: int, side: int, w0: seq<int>, w: seq<int>, m: nat, i: nat)
    requires Growing(b, ss, side, w0, w, m) && m < |w| && i < |w| && b[Pred(|b|, w[m])] == ss && |b| >= 2 && side != 0
    ensures InOrder(b, side, w[i], Pred(|b|, w[m]))
  {
    hide Leq, Side, Cmp;
    var k := Pred(|b|, w[m]);
    if i < |w0| {
      assert w[i] == w0[i];
      FirstOut(b, ss, side, w[i]);
      if side < 0 { KeyOrder(b, w[i], k); } else { KeyOrder(b, k, w[i]); }
    } else {
      var x := PredsFrom(b, w[..m], ss, i - |w0|);
      assert w[i] == Pred(|b|, w[x]);
      PredsOrder(b, side, w[x], w[m]);
    }
  }

  /** A rotation that leaves ss at once leaves it to its side. */
  lemma FirstOut(b: seq<Byte>, ss: int, side: int, r: nat)
    requires |b| >= 2 && r < |b| && b[r] == ss && b[Next(|b|, r)] != ss && Side(b, r, ss, |b|) == side
    ensures side < 0 ==> b[Next(|b|, r)] < ss
    ensures side > 0 ==> b[Next(|b|, r)] > ss
  {
    assert Side(b, r, ss, |b|) == Side(b, Next(|b|, r), ss, |b| - 1);
  }

  lemma GrowStep(b: seq<Byte>, ss: int, side: int, w0: seq<int>, w: seq<int>, m: nat)
    requires Growing(b, ss, side, w0, w, m) && m < |w| && |b| >= 2 && side != 0
    ensures var k := Pred(|b|, w[m]); Growing(b, ss, side, w0, if b[k] == ss then w + [k] else w, m + 1)
  {
    hide Leq, Side, InOrder;
    var k := Pred(|b|, w[m]);
    PredsNext(b, w, m, ss);
    if b[k] == ss {
      var w' := w + [k];
      SidePred(b, k, ss);
      forall i | 0 <= i < |w| ensures w[i] != k && InOrder(b, side, w[i], k) {
        NewInWindow(b, ss, side, w0, w, m, i);
        BehindWindow(b, ss, side, w0, w, m, i);
      }
      assert w'[..m + 1] == w[..m + 1];
      assert w' == w0 + (Preds(b, w[..m], ss) + [k]);
    }
  }

  // ----- the scan misses nothing -----

  lemma {:induction false} SideUp(b: seq<Byte>, r: nat, ss: int, h: nat, h': nat)
    requires r < |b| && h <= h' && Side(b, r, ss, h) != 0
    ensures Side(b, r, ss, h') == Side(b, r, ss, h)
    decreases h'
  {
    if h < h' {
      SideUp(b, r, ss, h, h' - 1);
      SideMore(b, r, ss, h' - 1);
    }
  }

  /** w0 has every rotation of the side that leaves ss at once. */
  ghost predicate AllOut(b: seq<Byte>, ss: int, side: int, w0: seq<int>) {
    forall r :: 0 <= r < |b| && b[r] == ss && b[Next(|b|, r)] != ss && Side(b, r, ss, |b|) == side ==> r in w0
  }

  /** A fully scanned window has every rotation of its side that starts with ss. */
  lemma {:induction false} InWindow(b: seq<Byte>, ss: int, side: int, w0: seq<int>, w: seq<int>, r: nat, h: nat)
    requires Growing(b, ss, side, w0, w, |w|) && AllOut(b, ss, side, w0) && side != 0
    requires r < |b| && b[r] == ss && h <= |b| && Side(b, r, ss, h) == side
    ensures r in w
    decreases h
  {
    hide Good;
    assert w[..|w|] == w && Rotations(b, w) by { GoodRotations(b, ss, side, w); }
    if b[Next(|b|, r)] != ss {
      SideUp(b, r, ss, h, |b|);
    } else {
      var x := Next(|b|, r);
      InWindow(b, ss, side, w0, w, x, h - 1);
      var i :| 0 <= i < |w| && w[i] == x;
      PredsHas(b, w, i);
      PredNext(|b|, r);
    }
  }

  lemma GoodRotations(b: seq<Byte>, ss: int, side: int, w: seq<int>)
    requires Good(b, ss, side, w)
    ensures Rotations(b, w)
  {
  }

  // ----- counting -----

  /** The rotations that start with c and ss, and whose successor is on the given side. */
  ghost function SideSet(b: seq<Byte>, ss: int, side: int, c: int): set<int> {
    set k | 0 <= k < |b| && b[k] == c && b[Next(|b|, k)] == ss && Side(b, Next(|b|, k), ss, |b|) == side
  }

  ghost function PairSet(b: seq<Byte>, ss: int, c: int): set<int> {
    set k | 0 <= k < |b| && b[k] == c && b[Next(|b|, k)] == ss
  }

  ghost function Elements(p: seq<int>): set<int> {
    set i | 0 <= i < |p| :: p[i]
  }

  lemma ListedSize(b: seq<Byte>, ss: int, side: int, c: int, p: seq<int>)
    requires Listed(b, ss, side, c, p)
    ensures |p| <= |SideSet(b, ss, side, c)|
    ensures SideSet(b, ss, side, c) <= Elements(p) ==> |p| == |SideSet(b, ss, side, c)|
  {
    hide Leq, Side, InOrder;
    PrefixCardinality(p, |p|);
    var all, found := SideSet(b, ss, side, c), Elements(p);
    assert found == set i | 0 <= i < |p| :: p[i];
    assert found <= all;
    SubsetSize(found, all);
    if all <= found { assert all == found; }
  }

  /** The predecessors found by a full scan are all there are. */
  lemma PredsComplete(b: seq<Byte>, ss: int, side: int, w0: seq<int>, w: seq<int>, c: int)
    requires Growing(b, ss, side, w0, w, |w|) && AllOut(b, ss, side, w0) && side != 0
    ensures SideSet(b, ss, side, c) <= Elements(Preds(b, w, c))
    ensures |Preds(b, w, c)| == |SideSet(b, ss, side, c)|
  {
    hide Leq, Side, InOrder, AllOut;
    var p := Preds(b, w, c);
    forall k | k in SideSet(b, ss, side, c) ensures k in Elements(p) {
      var x := Next(|b|, k);
      InWindow(b, ss, side, w0, w, x, |b|);
      var i :| 0 <= i < |w| && w[i] == x;
      PredsHas(b, w, i);
      PredNext(|b|, k);
      assert k in p;
      var j :| 0 <= j < |p| && p[j] == k;
    }
    PredsListed(b, ss, side, w, c);
    ListedSize(b, ss, side, c, p);
  }

  lemma TwoSides(b: seq<Byte>, ss: int, c: int)
    ensures |SideSet(b, ss, -1, c)| + |SideSet(b, ss, 1, c)| <= |PairSet(b, ss, c)|
    ensures (exists i :: 0 <= i < |b| && b[i] != ss) ==>
              |SideSet(b, ss, -1, c)| + |SideSet(b, ss, 1, c)| == |PairSet(b, ss, c)|
  {
    var lo, hi, all := SideSet(b, ss, -1, c), SideSet(b, ss, 1, c), PairSet(b, ss, c);
    assert |lo + hi| == |lo| + |hi|;
    SubsetSize(lo + hi, all);
    if exists i :: 0 <= i < |b| && b[i] != ss {
      var i :| 0 <= i < |b| && b[i] != ss;
      forall k | k in all ensures k in lo + hi {
        if Side(b, Next(|b|, k), ss, |b|) == 0 { AllEqual(b, Next(|b|, k), ss, i); }
      }
      assert lo + hi == all;
    }
  }

  lemma {:induction false} KeyedCount(keys: seq<int>, q: int, m: nat)
    requires m <= |keys|
    ensures |(set k | 0 <= k < m && keys[k] == q)| == Count(keys[..m], q)
  {
    if m > 0 {
      KeyedCount(keys, q, m - 1);
      CountStep(keys, m - 1, q);
      var s, t := set k | 0 <= k < m && keys[k] == q, set k | 0 <= k < m - 1 && keys[k] == q;
      assert s == if keys[m - 1] == q then t + {m - 1} else t;
    }
  }

  /** A small bucket has as many places as there are rotations with its two bytes. */
  lemma PairCount(b: seq<Byte>, ss: Byte, c: Byte)
    ensures var q := 256 * (c as int) + ss; |PairSet(b, ss, c)| == Less(Keys(b), q + 1) - Less(Keys(b), q)
  {
    hide Less;
    var keys, q := Keys(b), 256 * (c as int) + ss;
    KeyedCount(keys, q, |keys|);
    assert keys[..|keys|] == keys;
    LessNext(keys, q);
    assert PairSet(b, ss, c) == set k | 0 <= k < |keys| && keys[k] == q by {
      forall k | 0 <= k < |b| ensures keys[k] == q <==> b[k] == c && b[Next(|b|, k)] == ss {
        KeyParts(b, k, c, ss);
      }
    }
  }

  lemma KeyParts(b: seq<Byte>, k: nat, c: Byte, ss: Byte)
    requires k < |b|
    ensures Key(b, k) == 256 * (c as int) + ss <==> b[k] == c && b[Next(|b|, k)] == ss
  {
    assert (256 * (c as int) + ss) / 256 == c && (256 * (c as int) + ss) % 256 == ss;
  }
}
