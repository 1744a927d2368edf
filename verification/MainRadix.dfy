/**
  dep/bzip2/blocksort.c, the opening of mainSort (lines 751-857): the two-byte frequency table,
  the overshoot, the radix sort by two bytes, and the running order of the big buckets.
*/
module MainRadix {
  import opened Common
  import opened Rotation
  import opened Counting
  import opened MainCompare

  const RADIX := 65536

  /** The first two bytes of a rotation. */
  function Key(b: seq<Byte>, i: nat): (k: int)
    requires i < |b|
    ensures 0 <= k < RADIX && k / 256 == b[i] && k % 256 == b[Next(|b|, i)]
  {
    256 * (b[i] as int) + b[Next(|b|, i)]
  }

  function Keys(b: seq<Byte>): (k: seq<int>)
    ensures |k| == |b| && forall i :: 0 <= i < |b| ==> k[i] == Key(b, i)
  {
    seq(|b|, (i: int) requires 0 <= i < |b| => Key(b, i))
  }

  /** Rotations whose first two bytes differ are in the order of these. */
  lemma KeyOrder(b: seq<Byte>, i: nat, j: nat)
    requires |b| >= 2 && i < |b| && j < |b| && Key(b, i) < Key(b, j)
    ensures Leq(b, i, j)
  {
    assert Cmp(b, i, j, 0) == 0;
    if b[i] < b[j] {
      LeqDiffer(b, i, j, 0);
    } else {
      CmpMore(b, i, j, 0);
      assert Adv(|b|, i, 1) == Adv(|b|, Next(|b|, i), 0);
      assert Adv(|b|, j, 1) == Adv(|b|, Next(|b|, j), 0);
      LeqDiffer(b, i, j, 1);
    }
  }

  /** Rotations with the same first two bytes share two characters. */
  lemma KeyShare(b: seq<Byte>, i: nat, j: nat)
    requires i < |b| && j < |b| && Key(b, i) == Key(b, j)
    ensures Cmp(b, i, j, 2) == 0
  {
    assert b[i] == Key(b, i) / 256 && b[j] == Key(b, j) / 256;
    assert b[Next(|b|, i)] == Key(b, i) % 256 && b[Next(|b|, j)] == Key(b, j) % 256;
    assert Cmp(b, i, j, 2) == Cmp(b, Next(|b|, i), Next(|b|, j), 1);
    var x, y := Next(|b|, i), Next(|b|, j);
    assert Cmp(b, x, y, 1) == Cmp(b, Next(|b|, x), Next(|b|, y), 0);
  }

  // ----- counting from the end -----

  lemma {:induction false} CountTail(s: seq<int>, i: nat, c: int)
    requires i < |s|
    ensures Count(s[i..], c) == Count(s[i + 1..], c) + if s[i] == c then 1 else 0
  {
    assert s[i..] == [s[i]] + s[i + 1..];
    CountConcat([s[i]], s[i + 1..], c);
    assert [s[i]][..0] == [];
  }

  /** The word that slides over the block from its end holds the two bytes at hand. */
  lemma Slide(b: seq<Byte>, j: int, i: nat)
    requires i < |b| && j / 256 == (if i + 1 == |b| then b[0] else b[i + 1]) && 0 <= j < RADIX
    ensures j / 256 + 256 * (b[i] as int) == Key(b, i)
  {
  }

  method CountPairs(block: array<int>, quadrant: array<int>, ftab: array<int>, nblock: nat, ghost b: seq<Byte>)
    requires block != quadrant && block != ftab && quadrant != ftab && ftab.Length == RADIX + 1
    requires nblock == |b| > 0 && nblock <= block.Length && nblock <= quadrant.Length
    requires forall i :: 0 <= i < nblock ==> block[i] == b[i]
    modifies quadrant, ftab
    ensures forall c :: 0 <= c < RADIX ==> ftab[c] == Count(Keys(b), c)
    ensures ftab[RADIX] == 0
    ensures forall i :: 0 <= i < nblock ==> quadrant[i] == 0
  {
    ClearTable(ftab);
    hide Key, Count;
    ghost var keys := Keys(b);
    EmptyTail(keys);
    var j := block[0] * 256;
    var i: int := nblock - 1;
    while i >= 0
      invariant -1 <= i < nblock && 0 <= j < RADIX && j / 256 == (if i + 1 == nblock then b[0] else b[i + 1])
      invariant forall c :: 0 <= c < RADIX ==> ftab[c] == Count(keys[i + 1..], c)
      invariant ftab[RADIX] == 0 && forall k :: i < k < nblock ==> quadrant[k] == 0
    {
      quadrant[i] := 0;
      Slide(b, j, i);
      j := j / 256 + block[i] * 256;
      KeyIs(b, i);
      forall c | 0 <= c < RADIX ensures Count(keys[i..], c) == Count(keys[i + 1..], c) + if keys[i] == c then 1 else 0 {
        CountTail(keys, i, c);
      }
      ftab[j] := ftab[j] + 1;
      i := i - 1;
    }
    assert keys[0..] == keys;
  }

  lemma KeyIs(b: seq<Byte>, i: nat)
    requires i < |b|
    ensures Key(b, i) / 256 == b[i]
  {
  }

  lemma EmptyTail(s: seq<int>)
    ensures forall c :: Count(s[|s|..], c) == 0
  {
  }

  method ClearTable(ftab: array<int>)
    requires ftab.Length == RADIX + 1
    modifies ftab
    ensures forall c :: 0 <= c <= RADIX ==> ftab[c] == 0
  {
    var i := RADIX;
    while i >= 0
      invariant -1 <= i <= RADIX && forall c :: i < c <= RADIX ==> ftab[c] == 0
    {
      ftab[i] := 0;
      i := i - 1;
    }
  }

  /** The loop over the overshoot. */
  method CopyOvershoot(block: array<int>, quadrant: array<int>, nblock: nat, ghost b: seq<Byte>)
    requires block != quadrant && N_OVERSHOOT < nblock == |b| && block.Length == quadrant.Length == nblock + N_OVERSHOOT
    requires forall i :: 0 <= i < nblock ==> block[i] == b[i] && quadrant[i] == 0
    modifies block, quadrant
    ensures Extended(block[..], b) && forall i :: 0 <= i < quadrant.Length ==> quadrant[i] == 0
  {
    for i := 0 to N_OVERSHOOT
      invariant forall k :: 0 <= k < nblock ==> block[k] == b[k] && quadrant[k] == 0
      invariant forall k :: nblock <= k < nblock + i ==> block[k] == b[k - nblock] && quadrant[k] == 0
    {
      block[nblock + i] := block[i];
      quadrant[nblock + i] := 0;
    }
  }

  lemma ZeroRanks(q: seq<int>, b: seq<Byte>)
    requires |b| > N_OVERSHOOT && |q| == |b| + N_OVERSHOOT && forall i :: 0 <= i < |q| ==> q[i] == 0
    ensures Ranks(q, b)
  {
  }

  method Accumulate(ftab: array<int>, ghost keys: seq<int>)
    requires ftab.Length == RADIX + 1 && ftab[RADIX] == 0
    requires forall c :: 0 <= c < RADIX ==> ftab[c] == Count(keys, c)
    requires forall i :: 0 <= i < |keys| ==> 0 <= keys[i] < RADIX
    modifies ftab
    ensures forall c :: 0 <= c < RADIX ==> ftab[c] == Less(keys, c + 1)
    ensures ftab[RADIX] == |keys|
  {
    hide Less, Count;
    LessAll(keys, 0);
    LessNext(keys, 0);
    for i := 1 to RADIX
      invariant forall c :: 0 <= c < i ==> ftab[c] == Less(keys, c + 1)
      invariant forall c :: i <= c < RADIX ==> ftab[c] == Count(keys, c)
      invariant ftab[RADIX] == 0
    {
      LessNext(keys, i);
      ftab[i] := ftab[i] + ftab[i - 1];
    }
    LessAll(keys, RADIX);
    ftab[RADIX] := ftab[RADIX] + ftab[RADIX - 1];
  }

  // ----- placing from the end -----

  function Backwards(s: seq<int>): (r: seq<int>)
    ensures |r| == |s| && forall i :: 0 <= i < |s| ==> r[i] == s[|s| - 1 - i]
  {
    seq(|s|, (i: int) requires 0 <= i < |s| => s[|s| - 1 - i])
  }

  lemma {:induction false} LessConcat(a: seq<int>, s: seq<int>, c: int)
    ensures Less(a + s, c) == Less(a, c) + Less(s, c)
  {
    if s == [] {
      assert a + s == a;
    } else {
      assert (a + s)[..|a + s| - 1] == a + s[..|s| - 1];
      LessConcat(a, s[..|s| - 1], c);
    }
  }

  lemma {:induction false} LessBackwards(s: seq<int>, c: int)
    ensures Less(Backwards(s), c) == Less(s, c)
  {
    if s != [] {
      var t, x := s[..|s| - 1], s[|s| - 1];
      LessBackwards(t, c);
      assert Backwards(s) == [x] + Backwards(t);
      LessConcat([x], Backwards(t), c);
      assert [x][..0] == [];
    }
  }

  /** ptr holds rotations, p the same places counted from the end. */
  ghost predicate Mirrors(ptr: seq<int>, p: seq<int>) {
    |ptr| == |p| && forall x :: 0 <= x < |p| ==> ptr[x] == |p| - 1 - p[x]
  }

  /** A listing by key of the items counted from the end is one of the items. */
  lemma MirrorBucketed(keys: seq<int>, ptr: seq<int>, p: seq<int>)
    requires Mirrors(ptr, p) && Bucketed(Backwards(keys), p)
    ensures Bucketed(keys, ptr)
  {
    hide Less;
    var n, r := |p|, Backwards(keys);
    forall x | 0 <= x < n ensures Less(keys, keys[ptr[x]]) <= x < Less(keys, keys[ptr[x]] + 1) {
      assert keys[ptr[x]] == r[p[x]];
      LessBackwards(keys, r[p[x]]);
      LessBackwards(keys, r[p[x]] + 1);
    }
    forall x, y | 0 <= x < y < n ensures ptr[x] != ptr[y] {
      assert p[x] != p[y];
    }
  }

  lemma PlaceStart(keys: seq<int>, ftab: seq<int>, p: seq<int>)
    requires |p| == |keys| && |ftab| == RADIX + 1 && (forall i :: 0 <= i < |keys| ==> 0 <= keys[i] < RADIX)
    requires forall c :: 0 <= c < RADIX ==> ftab[c] == Less(keys, c + 1)
    ensures PlacedDown(Backwards(keys), RADIX, ftab, p, [], 0)
  {
    hide Less;
    var r := Backwards(keys);
    forall c | 0 <= c < RADIX ensures ftab[c] == Less(r, c + 1) - Count(r[..0], c) {
      LessBackwards(keys, c + 1);
    }
  }

  method PlacePairs(block: array<int>, ptr: array<int>, ftab: array<int>, nblock: nat, ghost b: seq<Byte>)
    requires block != ptr && block != ftab && ptr != ftab && ftab.Length == RADIX + 1 && nblock == |b| == ptr.Length > 0
    requires nblock <= block.Length && forall i :: 0 <= i < nblock ==> block[i] == b[i]
    requires forall c :: 0 <= c < RADIX ==> ftab[c] == Less(Keys(b), c + 1)
    modifies ptr, ftab
    ensures Bucketed(Keys(b), ptr[..])
    ensures forall c :: 0 <= c < RADIX ==> ftab[c] == Less(Keys(b), c)
    ensures ftab[RADIX] == old(ftab[RADIX])
  {
    hide Key, Count, Less, PlacedDown, Bucketed;
    ghost var keys, r, slot: seq<int>, t := Keys(b), Backwards(Keys(b)), [], 0;
    ghost var p := seq(nblock, (x: int) requires 0 <= x < nblock reads ptr => nblock - 1 - ptr[x]);
    PlaceStart(keys, ftab[..], p);
    var s := block[0] * 256;
    var i: int := nblock - 1;
    while i >= 0
      invariant -1 <= i < nblock && 0 <= s < RADIX && s / 256 == (if i + 1 == nblock then b[0] else b[i + 1])
      invariant t == nblock - 1 - i && PlacedDown(r, RADIX, ftab[..], p, slot, t) && Mirrors(ptr[..], p)
      invariant ftab[RADIX] == old(ftab[RADIX]) && |p| == nblock
    {
      Slide(b, s, i);
      s := s / 256 + block[i] * 256;
      KeyIs(b, i);
      assert r[t] == keys[i] == s;
      var j := ftab[s] - 1;
      ghost var f0, q0 := ftab[..], ptr[..];
      PlaceDown(r, RADIX, f0, p, slot, t, s, j);
      ftab[s] := j;
      ptr[j] := i;
      assert ftab[..] == f0[s := j] && ptr[..] == q0[j := i];
      p, slot, t := p[j := t], slot + [j], t + 1;
      i := i - 1;
    }
    PlacedDownAll(r, RADIX, ftab[..], p, slot);
    forall c | 0 <= c < RADIX ensures ftab[c] == Less(keys, c) {
      LessBackwards(keys, c);
    }
    MirrorBucketed(keys, ptr[..], p);
  }

  // ----- the running order -----

  /** BIGFREQ. */
  function BigFreq(ftab: seq<int>, c: int): int
    requires |ftab| == RADIX + 1 && 0 <= c < 256
  {
    ftab[(c + 1) * 256] - ftab[c * 256]
  }

  /** The first i entries are big buckets by increasing size. */
  ghost predicate BySize(ftab: seq<int>, order: seq<int>, i: int)
    requires |ftab| == RADIX + 1
  {
    && i <= |order| && (forall x :: 0 <= x < i ==> 0 <= order[x] < 256)
    && forall x, y :: 0 <= x < y < i ==> BigFreq(ftab, order[x]) <= BigFreq(ftab, order[y])
  }

  /** While vv moves down in steps of one: the entries it has passed are larger and have moved up. */
  ghost predicate MovedUp(ftab: seq<int>, f0: seq<int>, f: seq<int>, vv: int, j: int, i: int)
    requires |ftab| == RADIX + 1 && 0 <= vv < 256
  {
    && 0 <= j <= i < |f0| == |f|
    && (forall x :: 0 <= x < j ==> f[x] == f0[x])
    && (forall x :: j < x <= i ==> f[x] == f0[x - 1] && 0 <= f[x] < 256 && BigFreq(ftab, f[x]) > BigFreq(ftab, vv))
  }

  lemma Inserted(ftab: seq<int>, f0: seq<int>, f: seq<int>, vv: int, j: int, i: int)
    requires |ftab| == RADIX + 1 && 0 <= vv < 256 && MovedUp(ftab, f0, f, vv, j, i) && BySize(ftab, f0, i)
    requires j > 0 ==> BigFreq(ftab, f0[j - 1]) <= BigFreq(ftab, vv)
    ensures BySize(ftab, f[j := vv], i + 1)
  {
    hide BigFreq;
    var g := f[j := vv];
    forall x, y | 0 <= x < y < i + 1 ensures BigFreq(ftab, g[x]) <= BigFreq(ftab, g[y]) {
      if x < j && y == j && x < j - 1 { assert BigFreq(ftab, f0[x]) <= BigFreq(ftab, f0[j - 1]); }
    }
  }

  /** The inner loop of the shell sort: vv moves down from place i in steps of h. */
  method InsertBucket(runningOrder: array<int>, ftab: array<int>, h: int, i: int)
    requires runningOrder != ftab && runningOrder.Length == 256 && ftab.Length == RADIX + 1
    requires IsPerm(runningOrder[..]) && 1 <= h <= i < 256
    requires h == 1 ==> BySize(ftab[..], runningOrder[..], i)
    modifies runningOrder
    ensures IsPerm(runningOrder[..])
    ensures h == 1 ==> BySize(ftab[..], runningOrder[..], i + 1)
  {
    hide IsPerm, Count, BigFreq, BySize;
    ghost var f0 := runningOrder[..];
    PermRange(f0);
    var vv, j := runningOrder[i], i;
    assert f0[i := vv] == f0;
    while true
      invariant h <= j <= i && SameItems(f0, runningOrder[..][j := vv])
      invariant forall x :: 0 <= x < 256 ==> 0 <= runningOrder[x] < 256
      invariant h == 1 ==> MovedUp(ftab[..], f0, runningOrder[..], vv, j, i)
      decreases j
    {
      if !(BigFreq(ftab[..], runningOrder[j - h]) > BigFreq(ftab[..], vv)) { break; }
      ghost var f := runningOrder[..];
      MoveHole(f, vv, j, j - h);
      runningOrder[j] := runningOrder[j - h];
      assert runningOrder[..] == f[j := f[j - h]];
      j := j - h;
      if j <= h - 1 { break; }
    }
    ghost var f := runningOrder[..];
    if h == 1 { Inserted(ftab[..], f0, f, vv, j, i); }
    runningOrder[j] := vv;
    assert runningOrder[..] == f[j := vv];
    PermRearranged(f0, runningOrder[..]);
  }

  lemma PermRange(p: seq<int>)
    requires IsPerm(p)
    ensures forall x :: 0 <= x < |p| ==> 0 <= p[x] < |p|
  {
  }

  /** The running order lists every big bucket once, smaller ones first. What is sorted does not depend on it. */
  method RunningOrder(ftab: array<int>) returns (runningOrder: array<int>)
    requires ftab.Length == RADIX + 1
    ensures fresh(runningOrder) && runningOrder.Length == 256 && IsPerm(runningOrder[..])
    ensures BySize(ftab[..], runningOrder[..], 256)
  {
    runningOrder := new int[256];
    for i := 0 to 256
      invariant forall k :: 0 <= k < i ==> runningOrder[k] == k
    {
      runningOrder[i] := i;
    }
    var h := 1;
    h := 3 * h + 1;
    while h <= 256
      invariant h == 4 || h == 13 || h == 40 || h == 121 || h == 364
      decreases 1024 - h
    {
      h := 3 * h + 1;
    }
    while true
      invariant h == 4 || h == 13 || h == 40 || h == 121 || h == 364
      invariant IsPerm(runningOrder[..])
      decreases h
    {
      h := h / 3;
      PermRange(runningOrder[..]);
      for i := h to 256
        invariant IsPerm(runningOrder[..]) && (h == 1 ==> BySize(ftab[..], runningOrder[..], i))
      {
        InsertBucket(runningOrder, ftab, h, i);
      }
      if h == 1 { break; }
    }
  }
}
