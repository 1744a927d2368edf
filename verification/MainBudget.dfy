/**
  What the comparisons of dep/bzip2/blocksort.c cost the budget of mainSort (lines 347-469,
  480-717): every pair of rotations has a price, the number of eights of characters the two share
  behind the first twelve, and a stretch of rotations has that of all its pairs. No sort asks for
  a pair more often than it has increments, so the price of the block bounds what is spent.
*/
module MainBudget {
  import opened Common
  import opened Rotation
  import opened Counting
  import opened MainCompare

  // ----- the price of a pair -----

  /** How many eights, k at most, rotations x and y share behind their first twelve characters. */
  function EightsUpTo(b: seq<Byte>, x: nat, y: nat, k: nat): (r: nat)
    requires x < |b| && y < |b|
    ensures r <= k
  {
    if k == 0 || Cmp(b, x, y, 12 + 8 * k) == 0 then k else EightsUpTo(b, x, y, k - 1)
  }

  /** The price of comparing rotations x and y. */
  function Eights(b: seq<Byte>, x: int, y: int): (r: nat)
    ensures r <= Rounds(|b|)
  {
    if 0 <= x < |b| && 0 <= y < |b| then EightsUpTo(b, x, y, Rounds(|b|)) else 0
  }

  lemma {:induction false} EightsMost(b: seq<Byte>, x: nat, y: nat, k: nat, m: nat)
    requires x < |b| && y < |b| && k <= m && (k > 0 ==> Cmp(b, x, y, 12 + 8 * k) == 0)
    ensures k <= EightsUpTo(b, x, y, m)
  {
    if k < m { EightsMost(b, x, y, k, m - 1); }
  }

  lemma {:induction false} EightsNone(b: seq<Byte>, x: nat, y: nat, m: nat)
    requires x < |b| && y < |b| && Cmp(b, x, y, 20) != 0
    ensures EightsUpTo(b, x, y, m) == 0
  {
    if m > 0 {
      CmpDecided(b, x, y, 20, 12 + 8 * m);
      EightsNone(b, x, y, m - 1);
    }
  }

  /** A pair is free exactly when its first twenty characters differ. */
  lemma EightsFree(b: seq<Byte>, x: nat, y: nat)
    requires x < |b| && y < |b|
    ensures Eights(b, x, y) == 0 <==> Cmp(b, x, y, 20) != 0
  {
    if Cmp(b, x, y, 20) != 0 {
      EightsNone(b, x, y, Rounds(|b|));
    } else {
      EightsMost(b, x, y, 1, Rounds(|b|));
    }
  }

  lemma {:induction false} EightsUpToFlip(b: seq<Byte>, x: nat, y: nat, m: nat)
    requires x < |b| && y < |b|
    ensures EightsUpTo(b, x, y, m) == EightsUpTo(b, y, x, m)
  {
    CmpFlip(b, x, y, 12 + 8 * m);
    if m > 0 { EightsUpToFlip(b, x, y, m - 1); }
  }

  lemma EightsFlip(b: seq<Byte>, x: int, y: int)
    ensures Eights(b, x, y) == Eights(b, y, x)
  {
    if 0 <= x < |b| && 0 <= y < |b| { EightsUpToFlip(b, x, y, Rounds(|b|)); }
  }

  /** A comparison d characters into rotations that share these takes no more than the price of the pair. */
  lemma SpentPrice(b: seq<Byte>, q: seq<int>, x: nat, y: nat, d: nat, k: int)
    requires x < |b| && y < |b| <= |q| && Cmp(b, x, y, d) == 0
    requires Spent(b, q, Adv(|b|, x, d), Adv(|b|, y, d), k)
    ensures 0 <= k <= Eights(b, x, y)
  {
    hide RanksAgree;
    if k > 0 {
      CmpApart(b, x, y, d, 12 + 8 * k);
      CmpDecided(b, x, y, 12 + 8 * k, d + (12 + 8 * k));
    }
    EightsMost(b, x, y, k, Rounds(|b|));
  }

  // ----- the price of a stretch -----

  /** The prices of the pairs of v with each entry. */
  function RowSum(b: seq<Byte>, s: seq<int>, v: int): nat {
    if s == [] then 0 else RowSum(b, s[..|s| - 1], v) + Eights(b, s[|s| - 1], v)
  }

  /** The prices of all pairs of entries. */
  function PairSum(b: seq<Byte>, s: seq<int>): nat {
    if s == [] then 0 else PairSum(b, s[..|s| - 1]) + RowSum(b, s[..|s| - 1], s[|s| - 1])
  }

  lemma {:induction false} RowConcat(b: seq<Byte>, s: seq<int>, t: seq<int>, v: int)
    ensures RowSum(b, s + t, v) == RowSum(b, s, v) + RowSum(b, t, v)
  {
    hide Eights;
    if t == [] {
      assert s + t == s;
    } else {
      assert (s + t)[..|s + t| - 1] == s + t[..|t| - 1];
      RowConcat(b, s, t[..|t| - 1], v);
    }
  }

  lemma RowOne(b: seq<Byte>, x: int, v: int)
    ensures RowSum(b, [x], v) == Eights(b, x, v)
  {
    assert [x][..0] == [];
  }

  /** The last entry is somewhere in any rearrangement; taking it out of both leaves a rearrangement. */
  lemma TakeOut(s: seq<int>, t: seq<int>) returns (k: nat)
    requires SameItems(s, t) && s != []
    ensures k < |t| && t[k] == s[|s| - 1] && SameItems(s[..|s| - 1], t[..k] + t[k + 1..])
    ensures t == t[..k] + [t[k]] + t[k + 1..]
  {
    var v, s' := s[|s| - 1], s[..|s| - 1];
    CountIn(s, v);
    CountIn(t, v);
    k :| 0 <= k < |t| && t[k] == v;
    var t' := t[..k] + t[k + 1..];
    assert t == t[..k] + [v] + t[k + 1..];
    forall x ensures Count(s', x) == Count(t', x) {
      CountConcat(t[..k] + [v], t[k + 1..], x);
      CountConcat(t[..k], [v], x);
      CountConcat(t[..k], t[k + 1..], x);
      assert [v][..0] == [];
    }
  }

  lemma {:induction false} RowSame(b: seq<Byte>, s: seq<int>, t: seq<int>, v: int)
    requires SameItems(s, t)
    ensures RowSum(b, s, v) == RowSum(b, t, v)
    decreases |s|
  {
    hide Eights, SameItems;
    SameSize(s, t);
    if s != [] {
      var k := TakeOut(s, t);
      RowSame(b, s[..|s| - 1], t[..k] + t[k + 1..], v);
      RowConcat(b, t[..k] + [t[k]], t[k + 1..], v);
      RowConcat(b, t[..k], [t[k]], v);
      RowConcat(b, t[..k], t[k + 1..], v);
      RowOne(b, t[k], v);
    }
  }

  lemma SameSize(s: seq<int>, t: seq<int>)
    requires SameItems(s, t)
    ensures |s| == |t|
  {
  }

  /** Putting an entry in between adds its row, wherever it goes. */
  lemma {:induction false} PairInsert(b: seq<Byte>, a: seq<int>, x: int, c: seq<int>)
    ensures PairSum(b, a + [x] + c) == PairSum(b, a + c) + RowSum(b, a + c, x)
    decreases |c|
  {
    hide Eights;
    if c == [] {
      assert a + [x] + c == a + [x] && a + c == a;
      assert (a + [x])[..|a|] == a;
    } else {
      var c', z := c[..|c| - 1], c[|c| - 1];
      assert (a + [x] + c)[..|a| + |c|] == a + [x] + c' && (a + c)[..|a + c| - 1] == a + c';
      PairInsert(b, a, x, c');
      RowConcat(b, a + [x], c', z);
      RowConcat(b, a, [x], z);
      RowConcat(b, a, c', z);
      RowOne(b, x, z);
      EightsFlip(b, x, z);
    }
  }

  /** The order of the entries does not matter. */
  lemma {:induction false} PairSame(b: seq<Byte>, s: seq<int>, t: seq<int>)
    requires SameItems(s, t)
    ensures PairSum(b, s) == PairSum(b, t)
    decreases |s|
  {
    hide Eights, SameItems;
    SameSize(s, t);
    if s != [] {
      var k := TakeOut(s, t);
      PairSame(b, s[..|s| - 1], t[..k] + t[k + 1..]);
      RowSame(b, s[..|s| - 1], t[..k] + t[k + 1..], s[|s| - 1]);
      PairInsert(b, t[..k], t[k], t[k + 1..]);
    }
  }

  /** The pairs within two parts are among the pairs of the whole. */
  lemma {:induction false} PairConcat(b: seq<Byte>, s: seq<int>, t: seq<int>)
    ensures PairSum(b, s) + PairSum(b, t) <= PairSum(b, s + t)
    decreases |t|
  {
    hide Eights;
    if t == [] {
      assert s + t == s;
    } else {
      var t', z := t[..|t| - 1], t[|t| - 1];
      assert (s + t)[..|s + t| - 1] == s + t';
      PairConcat(b, s, t');
      RowConcat(b, s, t', z);
    }
  }

  // ----- stretches of the pointer array -----

  /** The prices of the pairs among the entries lo, ..., hi. */
  function Pairs(b: seq<Byte>, f: seq<int>, lo: int, hi: int): nat {
    if 0 <= lo <= hi + 1 <= |f| then PairSum(b, f[lo..hi + 1]) else 0
  }

  lemma PairsRearranged(b: seq<Byte>, f: seq<int>, g: seq<int>, lo: int, hi: int)
    requires Rearranged(f, g, lo, hi + 1)
    ensures Pairs(b, f, lo, hi) == Pairs(b, g, lo, hi)
  {
    hide PairSum, Count;
    if 0 <= lo <= hi + 1 <= |f| {
      RearrangedStretch(f, g, lo, hi + 1);
      PairSame(b, f[lo..hi + 1], g[lo..hi + 1]);
    }
  }

  lemma PairsUnchanged(b: seq<Byte>, f: seq<int>, g: seq<int>, lo: int, hi: int)
    requires |f| == |g| && forall x :: 0 <= lo <= x <= hi < |f| ==> f[x] == g[x]
    ensures Pairs(b, f, lo, hi) == Pairs(b, g, lo, hi)
  {
    if 0 <= lo <= hi + 1 <= |f| { assert f[lo..hi + 1] == g[lo..hi + 1]; }
  }

  lemma PairsNext(b: seq<Byte>, f: seq<int>, lo: int, i: int)
    requires 0 <= lo <= i < |f|
    ensures Pairs(b, f, lo, i) == Pairs(b, f, lo, i - 1) + RowSum(b, f[lo..i], f[i])
  {
    assert f[lo..i + 1][..i - lo] == f[lo..i];
  }

  lemma PairsApart(b: seq<Byte>, f: seq<int>, lo: int, mid: int, hi: int)
    requires 0 <= lo <= mid <= hi + 1 <= |f|
    ensures Pairs(b, f, lo, mid - 1) + Pairs(b, f, mid, hi) <= Pairs(b, f, lo, hi)
  {
    assert f[lo..hi + 1] == f[lo..mid] + f[mid..hi + 1];
    PairConcat(b, f[lo..mid], f[mid..hi + 1]);
  }

  lemma PairsEmpty(b: seq<Byte>, f: seq<int>, lo: int)
    ensures Pairs(b, f, lo, lo - 1) == 0
  {
  }

  /** One more entry passed on the way down. */
  lemma RowNext(b: seq<Byte>, f: seq<int>, v: int, k: int, j: int, i: int)
    requires 0 <= k < j <= i <= |f|
    ensures RowSum(b, f[j..i], v) + Eights(b, f[k], v) <= RowSum(b, f[k..i], v)
  {
    assert f[k..i] == [f[k]] + f[k + 1..j] + f[j..i];
    RowConcat(b, [f[k]] + f[k + 1..j], f[j..i], v);
    RowConcat(b, [f[k]], f[k + 1..j], v);
    RowOne(b, f[k], v);
  }

  lemma RowLonger(b: seq<Byte>, f: seq<int>, v: int, k: int, j: int, i: int)
    requires 0 <= k <= j <= i <= |f|
    ensures RowSum(b, f[j..i], v) <= RowSum(b, f[k..i], v)
  {
    assert f[k..i] == f[k..j] + f[j..i];
    RowConcat(b, f[k..j], f[j..i], v);
  }

  // ----- the price of the block -----

  function Positions(n: nat): (r: seq<int>)
    ensures |r| == n && forall i :: 0 <= i < n ==> r[i] == i
  {
    if n == 0 then [] else Positions(n - 1) + [n - 1]
  }

  /** The price of the block: the eights that each two of its rotations share, added up. */
  function Repeats(b: seq<Byte>): nat {
    PairSum(b, Positions(|b|))
  }

  /** Different entries that occur in both or in none. */
  lemma SameMembers(s: seq<int>, t: seq<int>)
    requires forall i, j :: 0 <= i < j < |s| ==> s[i] != s[j]
    requires forall i, j :: 0 <= i < j < |t| ==> t[i] != t[j]
    requires |s| == |t| && forall x :: x in s <==> x in t
    ensures SameItems(s, t)
  {
    forall x ensures Count(s, x) == Count(t, x) {
      CountIn(s, x);
      CountIn(t, x);
      CountDistinct(s, x);
      CountDistinct(t, x);
    }
  }

  /** The pairs of all rotations are those of the block. */
  lemma PairsAll(b: seq<Byte>, p: seq<int>)
    requires IsPerm(p) && |p| == |b|
    ensures Pairs(b, p, 0, |b| - 1) == Repeats(b)
  {
    hide PairSum;
    var ids := Positions(|b|);
    forall x ensures x in p <==> x in ids {
      if x in ids { var i := PermHits(p, x); }
      if x in p { assert ids[x] == x; }
    }
    SameMembers(p, ids);
    PairSame(b, p, ids);
    assert p[0..|b|] == p;
  }

  /** Two listings by key hold the same items in a range of keys. */
  lemma PairsBucketed(b: seq<Byte>, key: seq<int>, p: seq<int>, q: seq<int>, c: int, d: int)
    requires Bucketed(key, p) && Bucketed(key, q) && c <= d
    ensures Pairs(b, p, Less(key, c), Less(key, d) - 1) == Pairs(b, q, Less(key, c), Less(key, d) - 1)
  {
    hide PairSum, Less, Bucketed;
    LessMonotone(key, c, d);
    var lo, hi := Less(key, c), Less(key, d);
    BucketedPerm(key, p);
    BucketedPerm(key, q);
    forall x ensures x in p[lo..hi] <==> x in q[lo..hi] {
      if x in p[lo..hi] { Listed(key, p, q, c, d, x); }
      if x in q[lo..hi] { Listed(key, q, p, c, d, x); }
    }
    SameMembers(p[lo..hi], q[lo..hi]);
    PairSame(b, p[lo..hi], q[lo..hi]);
  }

  lemma BucketedPerm(key: seq<int>, p: seq<int>)
    requires Bucketed(key, p)
    ensures IsPerm(p) && |p| == |key|
  {
  }

  lemma Listed(key: seq<int>, p: seq<int>, q: seq<int>, c: int, d: int, x: int)
    requires Bucketed(key, p) && Bucketed(key, q) && c <= d && Less(key, c) <= Less(key, d) <= |p|
    requires x in p[Less(key, c)..Less(key, d)]
    ensures |q| == |p| && x in q[Less(key, c)..Less(key, d)]
  {
    hide Less, Bucketed;
    BucketedPerm(key, p);
    BucketedPerm(key, q);
    var i :| Less(key, c) <= i < Less(key, d) && p[i] == x;
    var j := PermHits(q, x);
    BucketOf(key, p, i, c);
    BucketOf(key, p, i, d);
    BucketOf(key, q, j, c);
    BucketOf(key, q, j, d);
    assert q[Less(key, c)..Less(key, d)][j - Less(key, c)] == x;
  }

  // ----- blocks that cost nothing, and the most that a block can cost -----

  /** Any two different rotations differ within their first h characters. */
  ghost predicate Apart(b: seq<Byte>, h: nat) {
    forall x, y :: 0 <= x < |b| && 0 <= y < |b| && x != y ==> Cmp(b, x, y, h) != 0
  }

  lemma ApartMore(b: seq<Byte>, h: nat, h': nat)
    requires Apart(b, h) && h <= h'
    ensures Apart(b, h')
  {
    forall x, y | 0 <= x < |b| && 0 <= y < |b| && x != y ensures Cmp(b, x, y, h') != 0 {
      CmpDecided(b, x, y, h, h');
    }
  }

  lemma {:induction false} RowNone(b: seq<Byte>, s: seq<int>, v: int)
    ensures RowSum(b, s, v) == 0 <==> forall i :: 0 <= i < |s| ==> Eights(b, s[i], v) == 0
  {
    hide Eights;
    if s != [] {
      var t := s[..|s| - 1];
      RowNone(b, t, v);
      assert forall i :: 0 <= i < |t| ==> t[i] == s[i];
    }
  }

  lemma {:induction false} PairNone(b: seq<Byte>, s: seq<int>)
    ensures PairSum(b, s) == 0 <==> forall i, j :: 0 <= i < j < |s| ==> Eights(b, s[i], s[j]) == 0
  {
    hide Eights;
    if s != [] {
      var t, z := s[..|s| - 1], s[|s| - 1];
      PairNone(b, t);
      RowNone(b, t, z);
      assert forall i :: 0 <= i < |t| ==> t[i] == s[i];
    }
  }

  /** The block costs nothing exactly when any two of its rotations differ within twenty characters. */
  lemma RepeatsNone(b: seq<Byte>)
    ensures Repeats(b) == 0 <==> Apart(b, 20)
  {
    hide Eights, Cmp;
    var ids := Positions(|b|);
    PairNone(b, ids);
    forall x: nat, y: nat | x < |b| && y < |b| && x != y
      ensures Cmp(b, x, y, 20) != 0 <==> Eights(b, ids[x], ids[y]) == 0
      ensures Eights(b, ids[x], ids[y]) == Eights(b, ids[y], ids[x])
    {
      EightsFree(b, x, y);
      EightsFlip(b, x, y);
    }
  }

  lemma {:induction false} RowMost(b: seq<Byte>, s: seq<int>, v: int)
    ensures RowSum(b, s, v) <= |s| * Rounds(|b|)
  {
    hide Rounds, Eights;
    if s != [] {
      RowMost(b, s[..|s| - 1], v);
      OneMore(|s|, Rounds(|b|));
    }
  }

  lemma OneMore(n: int, r: nat)
    ensures (n - 1) * r + r == n * r
  {
  }

  lemma {:induction false} PairMost(b: seq<Byte>, s: seq<int>)
    ensures 2 * PairSum(b, s) <= |s| * |s| * Rounds(|b|)
  {
    hide Rounds, Eights;
    if s != [] {
      var t := s[..|s| - 1];
      PairMost(b, t);
      RowMost(b, t, s[|s| - 1]);
      SquareNext(|t|, Rounds(|b|));
    }
  }

  lemma SquareNext(n: nat, r: nat)
    ensures (n + 1) * (n + 1) * r == n * n * r + 2 * (n * r) + r
  {
  }

  /** No block costs more than that. */
  lemma RepeatsMost(b: seq<Byte>)
    ensures 2 * Repeats(b) <= |b| * |b| * Rounds(|b|)
  {
    PairMost(b, Positions(|b|));
  }
}
