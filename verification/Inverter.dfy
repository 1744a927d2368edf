/**
  dep/bzip2/decompress.c, lines 487-556, and the GET macros of bzlib_private.h: the two ways
  the decoder inverts a last column. FAST packs the byte and T^-1 in one 32-bit word. SMALL
  packs T in 20 bits (a 16-bit word and a nibble), reverses in place only the cycle through
  origPtr, and finds each byte by binary search in the cumulative counts.
*/
module Inverter {
  import opened Common
  import opened Counting
  import opened InverseBwt

  /** The cumulative counts from the byte counts of the block. */
  method SetupCftab(unzftab: array<int>, cftab: array<int>, ghost l: seq<Byte>)
    requires unzftab != cftab && unzftab.Length == 256 && cftab.Length == 257
    requires forall c :: 0 <= c < 256 ==> unzftab[c] == Count<int>(l, c)
    modifies cftab
    ensures forall c :: 0 <= c <= 256 ==> 0 <= cftab[c] == Less(l, c) <= |l|
    ensures cftab[256] == |l|
  {
    cftab[0] := 0;
    for i := 1 to 257
      invariant cftab[0] == 0
      invariant forall c :: 1 <= c < i ==> cftab[c] == unzftab[c - 1]
    {
      cftab[i] := unzftab[i - 1];
    }
    LessAll(l, 0);
    for i := 1 to 257
      invariant forall c :: 0 <= c < i ==> cftab[c] == Less(l, c)
      invariant forall c :: i <= c < 257 ==> cftab[c] == unzftab[c - 1]
    {
      LessNext(l, i - 1);
      cftab[i] := cftab[i] + cftab[i - 1];
    }
    LessAll(l, 256);
  }

  // ----- FAST -----

  /** `tt[x] |= i << 8` on a word that holds one byte. */
  lemma OrByte(x: Byte, i: nat)
    ensures BitOr(x, 256 * i) == x + 256 * i
  {
    assert Pow2(8) == 256;
    DisjointOr(x, i, 8);
  }

  /** tt holds the byte of the last column and, 8 bits up, the entry of T^-1. */
  ghost predicate Packed(tt: seq<int>, l: seq<Byte>, t: seq<int>) {
    && |t| == |l| <= |tt|
    && forall j :: 0 <= j < |l| ==> t[j] >= 0 && tt[j] == l[j] + 256 * t[j]
  }

  ghost predicate Filling(tt: seq<int>, l: seq<Byte>, t: seq<int>, i: int) {
    && Packed(tt, l, t)
    && forall j :: 0 <= j < |l| && t[j] != 0 ==> t[j] < i <= |l| && Slot(l, t[j]) == j
  }

  lemma FillingStep(tt: seq<int>, l: seq<Byte>, t: seq<int>, cftab: seq<int>, i: int, k: int)
    requires Filling(tt, l, t, i) && PlacedUp(l, 256, cftab, t, i) && i < |l| && k == cftab[l[i]]
    ensures k == Slot(l, i) < |l| && tt[k] == l[k]
    ensures Filling(tt[k := tt[k] + 256 * i], l, t[k := i], i + 1)
    ensures PlacedUp(l, 256, cftab[l[i] := k + 1], t[k := i], i + 1)
  {
    hide Less, Slot;
    PlaceUp(l, 256, cftab, t, i, l[i], k);
    assert t[k] == 0;
  }

  method BuildFast(tt: array<int>, cftab: array<int>, nblock: int, ghost l: seq<Byte>) returns (ghost t: seq<int>)
    requires tt != cftab && nblock == |l| <= tt.Length && nblock < 0x100_0000 && cftab.Length == 257
    requires forall i :: 0 <= i < nblock ==> tt[i] == l[i]
    requires forall c :: 0 <= c < 256 ==> cftab[c] == Less(l, c)
    modifies tt, cftab
    ensures InverseSlots(l, t) && Packed(tt[..], l, t)
  {
    hide Less, Slot, Filling, PlacedUp, BitOr;
    t := seq(nblock, i => 0);
    FillStart(tt[..], l, t, cftab[..]);
    for i := 0 to nblock
      invariant |t| == nblock && Filling(tt[..], l, t, i) && PlacedUp(l, 256, cftab[..], t, i)
    {
      ghost var w, s := tt[..], cftab[..];
      FillingByte(w, l, t, i);
      var uc := tt[i] % 256;
      assert uc == l[i];
      FillingStep(w, l, t, s, i, s[uc]);
      OrByte(w[s[uc]], i);
      tt[cftab[uc]] := BitOr(tt[cftab[uc]], 256 * i);
      assert tt[..] == w[s[uc] := w[s[uc]] + 256 * i];
      t := t[s[uc] := i];
      cftab[uc] := cftab[uc] + 1;
      assert cftab[..] == s[uc := s[uc] + 1];
    }
    FillEnd(tt[..], l, t, cftab[..]);
  }

  lemma FillStart(tt: seq<int>, l: seq<Byte>, t: seq<int>, cftab: seq<int>)
    requires |t| == |l| <= |tt| && |cftab| >= 256
    requires forall i :: 0 <= i < |l| ==> tt[i] == l[i] && t[i] == 0
    requires forall c :: 0 <= c < 256 ==> cftab[c] == Less(l, c)
    ensures Filling(tt, l, t, 0) && PlacedUp(l, 256, cftab, t, 0)
  {
    forall c | 0 <= c < 256 ensures cftab[c] == Less(l, c) + Count<int>(l[..0], c) {}
  }

  lemma FillingByte(tt: seq<int>, l: seq<Byte>, t: seq<int>, i: int)
    requires Filling(tt, l, t, i) && 0 <= i < |l|
    ensures |l| <= |tt| && tt[i] % 256 == l[i]
  {
    hide Slot;
    assert tt[i] == l[i] + 256 * t[i];
    Unpack(l[i], t[i]);
  }

  lemma Unpack(uc: Byte, i: nat)
    ensures (uc + 256 * i) % 256 == uc && (uc + 256 * i) / 256 == i
  {
  }

  lemma FillEnd(tt: seq<int>, l: seq<Byte>, t: seq<int>, cftab: seq<int>)
    requires Filling(tt, l, t, |l|) && PlacedUp(l, 256, cftab, t, |l|)
    ensures InverseSlots(l, t) && Packed(tt, l, t)
  {
  }

  // ----- SMALL: 20-bit entries -----

  /** GET_LL. */
  function GetLL(ll16: seq<int>, ll4: seq<int>, i: nat): int
    requires i < |ll16| && i / 2 < |ll4|
  {
    ll16[i] + 65536 * ((if i % 2 == 0 then ll4[i / 2] else ll4[i / 2] / 16) % 16)
  }

  ghost predicate Nibbles(ll4: seq<int>) {
    forall k :: 0 <= k < |ll4| ==> 0 <= ll4[k] < 256
  }

  /** The table as the list of its entries. */
  ghost predicate Table(ll16: seq<int>, ll4: seq<int>, u: seq<int>) {
    && |u| <= |ll16| && |u| <= 2 * |ll4| && Nibbles(ll4)
    && forall k :: 0 <= k < |u| ==> GetLL(ll16, ll4, k) == u[k]
  }

  /** SET_LL. */
  method SetLL(ll16: array<int>, ll4: array<int>, i: int, n: int)
    requires ll16 != ll4 && 0 <= i < ll16.Length && i / 2 < ll4.Length && 0 <= n < 0x10_0000 && Nibbles(ll4[..])
    modifies ll16, ll4
    ensures Nibbles(ll4[..])
    ensures GetLL(ll16[..], ll4[..], i) == n
    ensures ll16[..] == old(ll16[..])[i := n % 65536]
    ensures forall k :: 0 <= k < ll16.Length && k != i && k / 2 < ll4.Length ==>
              GetLL(ll16[..], ll4[..], k) == old(GetLL(ll16[..], ll4[..], k))
  {
    hide BitOr;
    ghost var a, d := ll16[..], ll4[..];
    ll16[i] := n % 65536;
    var hi := n / 65536;
    var w := ll4[i / 2];
    OrNibbles(w, hi);
    if i % 2 == 0 {
      ll4[i / 2] := BitOr(w - w % 16, hi);
    } else {
      ll4[i / 2] := BitOr(w % 16, 16 * hi);
    }
    SetLLFacts(a, d, ll16[..], ll4[..], i, n);
  }

  lemma OrNibbles(w: nat, h: nat)
    requires h < 16
    ensures BitOr(w - w % 16, h) == (w - w % 16) + h && BitOr(w % 16, 16 * h) == w % 16 + 16 * h
  {
    assert Pow2(4) == 16;
    DisjointOr(h, w / 16, 4);
    DisjointOr(w % 16, h, 4);
  }

  lemma SetLLFacts(a: seq<int>, d: seq<int>, a': seq<int>, d': seq<int>, i: int, n: int)
    requires 0 <= i < |a| && i / 2 < |d| && 0 <= n < 0x10_0000 && Nibbles(d)
    requires a' == a[i := n % 65536]
    requires d' == d[i / 2 := if i % 2 == 0 then (d[i / 2] - d[i / 2] % 16) + n / 65536
                                            else d[i / 2] % 16 + 16 * (n / 65536)]
    ensures Nibbles(d') && GetLL(a', d', i) == n
    ensures forall k :: 0 <= k < |a| && k != i && k / 2 < |d| ==> GetLL(a', d', k) == GetLL(a, d, k)
  {
    var j, w := i / 2, d[i / 2];
    NibbleParts(w, n / 65536);
    assert d'[j] == if i % 2 == 0 then (w - w % 16) + n / 65536 else w % 16 + 16 * (n / 65536);
    forall k | 0 <= k < |a| && k != i && k / 2 < |d| ensures GetLL(a', d', k) == GetLL(a, d, k) {
      assert a'[k] == a[k];
      if k / 2 == j { HalvesDiffer(i, k); }
    }
  }

  lemma HalvesDiffer(i: nat, k: nat)
    requires i != k && i / 2 == k / 2
    ensures i % 2 != k % 2
  {
  }

  lemma NibbleParts(w: Byte, h: int)
    requires 0 <= h < 16
    ensures var low := (w - w % 16) + h; 0 <= low < 256 && low % 16 == h && low / 16 == w / 16
    ensures var high := w % 16 + 16 * h; 0 <= high < 256 && high % 16 == w % 16 && (high / 16) % 16 == h
  {
  }

  // ----- SMALL: computing T and reversing one cycle of it -----

  ghost predicate Ranged(t: seq<int>) {
    forall i :: 0 <= i < |t| ==> 0 <= t[i] < |t|
  }

  /** t and s are inverse to each other. */
  ghost predicate Mutual(t: seq<int>, s: seq<int>) {
    && |t| == |s| && Ranged(t) && Ranged(s)
    && (forall i :: 0 <= i < |t| ==> s[t[i]] == i)
    && (forall i :: 0 <= i < |s| ==> t[s[i]] == i)
  }

  /** The loop that computes T: entry i becomes the slot of byte i of the last column. */
  ghost predicate FillingT(ll16: seq<int>, ll4: seq<int>, l: seq<Byte>, i: int) {
    && 0 <= i <= |l| <= |ll16| && |l| <= 2 * |ll4| && Nibbles(ll4)
    && (forall k :: 0 <= k < i ==> GetLL(ll16, ll4, k) == Slot(l, k))
    && (forall k :: i <= k < |l| ==> ll16[k] == l[k])
  }

  method BuildSmall(ll16: array<int>, ll4: array<int>, cftabCopy: array<int>, nblock: int, ghost l: seq<Byte>)
    returns (ghost t: seq<int>)
    requires ll16 != ll4 && cftabCopy != ll16 && cftabCopy != ll4 && cftabCopy.Length == 257
    requires nblock == |l| <= ll16.Length && nblock <= 2 * ll4.Length && nblock <= 900000 && Nibbles(ll4[..])
    requires forall i :: 0 <= i < nblock ==> ll16[i] == l[i]
    requires forall c :: 0 <= c < 256 ==> cftabCopy[c] == Less(l, c)
    modifies ll16, ll4, cftabCopy
    ensures FillingT(ll16[..], ll4[..], l, nblock) && InverseSlots(l, t)
  {
    hide Less, Slot, PlacedUp, GetLL;
    t := seq(nblock, i => 0);
    TStart(l, t, cftabCopy[..]);
    for i := 0 to nblock
      invariant |t| == nblock && PlacedUp(l, 256, cftabCopy[..], t, i)
      invariant FillingT(ll16[..], ll4[..], l, i)
    {
      ghost var s := cftabCopy[..];
      var uc := ll16[i] % 256;
      assert uc == l[i];
      PlaceUp(l, 256, s, t, i, uc, s[uc]);
      SetLL(ll16, ll4, i, cftabCopy[uc]);
      t := t[s[uc] := i];
      cftabCopy[uc] := cftabCopy[uc] + 1;
      assert cftabCopy[..] == s[uc := s[uc] + 1];
    }
    TEnd(l, t, cftabCopy[..]);
  }

  lemma TEnd(l: seq<Byte>, t: seq<int>, cftab: seq<int>)
    requires PlacedUp(l, 256, cftab, t, |l|)
    ensures InverseSlots(l, t)
  {
  }

  /** T: where each byte of the last column stands in the first. */
  ghost function SlotList(l: seq<Byte>): (u: seq<int>)
    ensures |u| == |l| && forall i :: 0 <= i < |l| ==> u[i] == Slot(l, i)
  {
    seq(|l|, (i: int) requires 0 <= i < |l| => Slot(l, i))
  }

  /** The table BuildSmall leaves is T, and the listing by slots is its inverse. */
  lemma TableOfT(ll16: seq<int>, ll4: seq<int>, l: seq<Byte>, t: seq<int>)
    requires FillingT(ll16, ll4, l, |l|) && InverseSlots(l, t)
    ensures Table(ll16, ll4, SlotList(l)) && Mutual(SlotList(l), t)
  {
    hide Slot, GetLL, Stable;
    InverseSlotsStable(l, t);
  }

  lemma TStart(l: seq<Byte>, t: seq<int>, cftab: seq<int>)
    requires |t| == |l| && |cftab| >= 256
    requires forall c :: 0 <= c < 256 ==> cftab[c] == Less(l, c)
    ensures PlacedUp(l, 256, cftab, t, 0)
  {
    forall c | 0 <= c < 256 ensures cftab[c] == Less(l, c) + Count<int>(l[..0], c) {}
  }

  /** Coming back to a point of the walk means coming back to its start. */
  lemma {:induction false} WalkCancel(t: seq<int>, s: seq<int>, f: int, a: nat, d: nat)
    requires Mutual(t, s) && 0 <= f < |t| && Walk(t, f, a + d) == Walk(t, f, a)
    ensures Walk(t, f, d) == f
  {
    if a > 0 {
      WalkNext(t, f, a - 1);
      WalkNext(t, f, a - 1 + d);
      WalkCancel(t, s, f, a - 1, d);
    }
  }

  /** The walk from f comes by x within m steps. */
  ghost predicate Passed(t: seq<int>, f: int, m: nat, x: int)
    requires Ranged(t) && 0 <= f < |t|
  {
    exists k: nat :: 1 <= k <= m && Walk(t, f, k) == x
  }

  lemma PassedNext(t: seq<int>, f: int, m: nat, x: int)
    requires Ranged(t) && 0 <= f < |t|
    ensures Passed(t, f, m + 1, x) <==> Passed(t, f, m, x) || Walk(t, f, m + 1) == x
  {
    if Walk(t, f, m + 1) == x { assert Passed(t, f, m + 1, x); }
  }

  /** After m rounds of the reversal: where the walk from f has passed, the arrow is turned around. */
  ghost predicate Reversing(t: seq<int>, s: seq<int>, u: seq<int>, f: int, m: nat)
    requires Ranged(t) && 0 <= f < |t| == |s|
  {
    |u| == |t| && forall x :: 0 <= x < |u| ==> u[x] == if Passed(t, f, m, x) then s[x] else t[x]
  }

  /** Until the walk is back at f it only meets new points. */
  lemma NewPoint(t: seq<int>, s: seq<int>, f: int, m: nat)
    requires Mutual(t, s) && 0 <= f < |t| && !Passed(t, f, m, f)
    ensures !Passed(t, f, m, Walk(t, f, m + 1))
  {
    if Passed(t, f, m, Walk(t, f, m + 1)) {
      var k: nat :| 1 <= k <= m && Walk(t, f, k) == Walk(t, f, m + 1);
      WalkCancel(t, s, f, k, m + 1 - k);
    }
  }

  lemma ReversingStep(t: seq<int>, s: seq<int>, u: seq<int>, f: int, m: nat, i: int, j: int)
    requires Mutual(t, s) && 0 <= f < |t| && Reversing(t, s, u, f, m) && !Passed(t, f, m, f)
    requires i == Walk(t, f, m) && j == Walk(t, f, m + 1)
    ensures u[j] == Walk(t, f, m + 2)
    ensures Reversing(t, s, u[j := i], f, m + 1)
    ensures Passed(t, f, m + 1, f) <==> j == f
  {
    NewPoint(t, s, f, m);
    WalkNext(t, f, m);
    WalkNext(t, f, m + 1);
    var u' := u[j := i];
    forall x | 0 <= x < |u'| ensures u'[x] == if Passed(t, f, m + 1, x) then s[x] else t[x] {
      PassedNext(t, f, m, x);
    }
    PassedNext(t, f, m, f);
  }

  /** New points are distinct, so there are fewer than |t| of them. */
  lemma NewPointBound(t: seq<int>, s: seq<int>, f: int, m: nat)
    requires Mutual(t, s) && 0 <= f < |t| && !Passed(t, f, m, f)
    ensures m < |t|
  {
    var points := seq(m + 1, (k: int) requires 0 <= k < m + 1 => Walk(t, f, k));
    forall i, j | 0 <= i < j < |points| ensures points[i] != points[j] {
      if points[i] == points[j] {
        WalkCancel(t, s, f, i, j - i);
      }
    }
    var image := set k | 0 <= k < m + 1 :: points[k];
    PrefixCardinality(points, m + 1);
    SubsetSize(image, Range(|t|));
  }

  lemma {:induction false} ReversedWalk(t: seq<int>, s: seq<int>, u: seq<int>, f: int, m: nat, x: int, k: nat)
    requires Mutual(t, s) && 0 <= f < |t| && Reversing(t, s, u, f, m) && Ranged(u)
    requires 0 <= x < |t| && Passed(t, f, m, x) && Walk(t, f, m) == f
    ensures Walk(u, x, k) == Walk(s, x, k)
    decreases k
  {
    if k > 0 {
      var q: nat :| 1 <= q <= m && Walk(t, f, q) == x;
      WalkNext(t, f, q - 1);
      assert s[x] == Walk(t, f, q - 1);
      assert Passed(t, f, m, s[x]) by {
        if q == 1 { assert Walk(t, f, m) == s[x]; } else { assert Walk(t, f, q - 1) == s[x]; }
      }
      ReversedWalk(t, s, u, f, m, s[x], k - 1);
    }
  }

  lemma TableBounds(ll16: seq<int>, ll4: seq<int>, u: seq<int>)
    requires Table(ll16, ll4, u)
    ensures |u| <= |ll16| && |u| <= 2 * |ll4| && Nibbles(ll4)
    ensures forall k :: 0 <= k < |u| ==> GetLL(ll16, ll4, k) == u[k]
  {
  }

  /** The do-while loop that turns around the cycle of T through origPtr. */
  method ReverseCycle(ll16: array<int>, ll4: array<int>, origPtr: int, ghost t: seq<int>, ghost s: seq<int>)
    returns (ghost u: seq<int>)
    requires ll16 != ll4 && Mutual(t, s) && 0 <= origPtr < |t| <= 900000 && Table(ll16[..], ll4[..], t)
    modifies ll16, ll4
    ensures Table(ll16[..], ll4[..], u) && |u| == |t| && Ranged(u)
    ensures forall k: nat :: Walk(u, origPtr, k) == Walk(s, origPtr, k)
  {
    hide GetLL, Reversing, Passed, Mutual, Table, Walk;
    MutualRanged(t, s);
    u := t;
    ReversingStart(t, s, origPtr);
    TableBounds(ll16[..], ll4[..], t);
    var i := origPtr;
    var j := GetLL(ll16[..], ll4[..], i);
    ghost var m := 0;
    while true
      invariant |u| == |t| && Table(ll16[..], ll4[..], u)
      invariant Reversing(t, s, u, origPtr, m) && !Passed(t, origPtr, m, origPtr)
      invariant i == Walk(t, origPtr, m) && j == Walk(t, origPtr, m + 1)
      decreases |t| - m
    {
      NewPointBound(t, s, origPtr, m);
      ReversingStep(t, s, u, origPtr, m, i, j);
      TableBounds(ll16[..], ll4[..], u);
      var tmp := GetLL(ll16[..], ll4[..], j);
      SetLL(ll16, ll4, j, i);
      u := u[j := i];
      TableFrom(ll16[..], ll4[..], u);
      i := j;
      j := tmp;
      m := m + 1;
      if i == origPtr { break; }
    }
    ReversedRanged(t, s, u, origPtr, m);
    forall k: nat ensures Walk(u, origPtr, k) == Walk(s, origPtr, k) {
      ReversedWalk(t, s, u, origPtr, m, origPtr, k);
    }
  }

  lemma ReversedRanged(t: seq<int>, s: seq<int>, u: seq<int>, f: int, m: nat)
    requires Mutual(t, s) && 0 <= f < |t| && Reversing(t, s, u, f, m)
    ensures Ranged(u)
  {
    hide Passed;
  }

  lemma TableFrom(ll16: seq<int>, ll4: seq<int>, u: seq<int>)
    requires |u| <= |ll16| && |u| <= 2 * |ll4| && Nibbles(ll4)
    requires forall k :: 0 <= k < |u| ==> GetLL(ll16, ll4, k) == u[k]
    ensures Table(ll16, ll4, u)
  {
  }

  lemma MutualRanged(t: seq<int>, s: seq<int>)
    requires Mutual(t, s)
    ensures |t| == |s| && Ranged(t) && Ranged(s)
  {
  }

  lemma ReversingStart(t: seq<int>, s: seq<int>, f: int)
    requires Ranged(t) && 0 <= f < |t| == |s|
    ensures Reversing(t, s, t, f, 0) && !Passed(t, f, 0, f)
    ensures Walk(t, f, 0) == f && Walk(t, f, 1) == t[f]
  {
    assert Walk(t, t[f], 0) == t[f];
  }

  /** BZ2_indexIntoF: the byte whose range of slots contains indx. */
  method IndexIntoF(indx: int, cftab: array<int>, ghost l: seq<Byte>, ghost t: seq<int>) returns (nb: int)
    requires cftab.Length == 257 && Stable(l, t) && 0 <= indx < |l|
    requires forall c :: 0 <= c <= 256 ==> cftab[c] == Less(l, c)
    ensures 0 <= t[indx] < |l| && nb == l[t[indx]]
  {
    hide Less;
    ghost var key: seq<int> := l;
    StableBounds(l, t, indx);
    nb := 0;
    var na := 256;
    BucketOf(key, t, indx, 0);
    BucketOf(key, t, indx, 256);
    while na - nb != 1
      invariant 0 <= nb < na <= 256 && Less(l, nb) <= indx < Less(l, na)
    {
      var mid := (nb + na) / 2;
      if indx >= cftab[mid] { nb := mid; } else { na := mid; }
    }
    BucketOf(key, t, indx, nb);
  }

  lemma StableBounds(l: seq<Byte>, t: seq<int>, i: int)
    requires Stable(l, t) && 0 <= i < |l|
    ensures Bucketed(l, t) && |t| == |l| && 0 <= t[i] < |l|
  {
  }
}
