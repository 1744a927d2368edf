/**
  dep/bzip2/blocksort.c, Step 2 of mainSort (lines 916-951): the two scans of a big bucket, which
  write into the array they read.
*/
module PointerScan {
  import opened Common
  import opened Rotation
  import opened Counting
  import opened MainCompare
  import opened MainRadix
  import opened MainSimpleSort
  import opened MainScan

  /** SETMASK, the flag in ftab of a small bucket that is sorted. */
  const SETMASK := 2097152

  /** The i-th place from a in scanning direction. */
  function Along(side: int, a: int, i: int): int {
    if side < 0 then a + i else a - i
  }

  /** Where the scan of the big bucket ss starts. */
  function Origin(b: seq<Byte>, ss: int, side: int): int {
    if side < 0 then Less(Keys(b), 256 * ss) else Less(Keys(b), 256 * ss + 256) - 1
  }

  /** Where the scan starts to fill the small bucket [c, ss]. */
  function Anchor(b: seq<Byte>, ss: int, side: int, c: int): int {
    if side < 0 then Less(Keys(b), 256 * c + ss) else Less(Keys(b), 256 * c + ss + 1) - 1
  }

  /** The small bucket [c, d] is in order. */
  ghost predicate SmallSorted(b: seq<Byte>, p: seq<int>, c: int, d: int) {
    Sorted(p, b, Less(Keys(b), 256 * c + d), Less(Keys(b), 256 * c + d + 1) - 1)
  }

  /** The small buckets [ss, c] before (after) [ss, ss], in scanning order. */
  ghost predicate Rim(b: seq<Byte>, p: seq<int>, ss: int, side: int, w0: seq<int>) {
    && Anchor(b, ss, side, ss) == Along(side, Origin(b, ss, side), |w0|)
    && forall i :: 0 <= i < |w0| ==>
         0 <= Along(side, Origin(b, ss, side), i) < |p| && w0[i] == p[Along(side, Origin(b, ss, side), i)]
  }

  lemma RimExists(b: seq<Byte>, p: seq<int>, ss: int, side: int) returns (w0: seq<int>)
    requires |p| == |b| && 0 <= ss < 256
    ensures Rim(b, p, ss, side, w0)
  {
    hide Less;
    var keys, o, a := Keys(b), Origin(b, ss, side), Anchor(b, ss, side, ss);
    LessMonotone(keys, 256 * ss, 256 * ss + ss);
    LessMonotone(keys, 256 * ss + ss, 256 * ss + ss + 1);
    LessMonotone(keys, 256 * ss + ss + 1, 256 * ss + 256);
    var len := if side < 0 then a - o else o - a;
    w0 := seq(len, (i: int) requires 0 <= i < len && 0 <= Along(side, o, i) < |p| => p[Along(side, o, i)]);
  }

  /** The two bytes of an entry of a small bucket. */
  lemma KeySplit(b: seq<Byte>, k: nat)
    requires k < |b|
    ensures Key(b, k) == 256 * (b[k] as int) + b[Next(|b|, k)]
  {
  }

  /** A place lies in the rim exactly when its rotation leaves ss at once, to that side. */
  lemma RimPlace(b: seq<Byte>, p: seq<int>, ss: int, side: int, w0: seq<int>, x: nat)
    requires Bucketed(Keys(b), p) && 0 <= ss < 256 && Rim(b, p, ss, side, w0) && x < |p|
    ensures 0 <= p[x] < |b|
    ensures side < 0 ==> (Origin(b, ss, side) <= x < Anchor(b, ss, side, ss) <==> b[p[x]] == ss && b[Next(|b|, p[x])] < ss)
    ensures side >= 0 ==> (Anchor(b, ss, side, ss) < x <= Origin(b, ss, side) <==> b[p[x]] == ss && b[Next(|b|, p[x])] > ss)
  {
    hide Less;
    var keys, k := Keys(b), p[x];
    KeySplit(b, k);
    BucketOf(keys, p, x, 256 * ss);
    BucketOf(keys, p, x, 256 * ss + ss);
    BucketOf(keys, p, x, 256 * ss + ss + 1);
    BucketOf(keys, p, x, 256 * ss + 256);
  }

  /** With the small buckets [ss, c] in order, the rim is what the scan needs to start from. */
  lemma RimBase(b: seq<Byte>, p: seq<int>, ss: int, side: int, w0: seq<int>)
    requires Bucketed(Keys(b), p) && |b| >= 2 && 0 <= ss < 256 && (side == -1 || side == 1) && Rim(b, p, ss, side, w0)
    requires forall c :: 0 <= c < 256 && c != ss ==> SmallSorted(b, p, ss, c)
    ensures Base(b, ss, side, w0) && AllOut(b, ss, side, w0)
  {
    hide Less, Leq, Key, SmallSorted;
    var o := Origin(b, ss, side);
    forall i | 0 <= i < |w0|
      ensures 0 <= w0[i] < |b| && b[w0[i]] == ss && b[Next(|b|, w0[i])] != ss && Side(b, w0[i], ss, |b|) == side
    {
      RimPlace(b, p, ss, side, w0, Along(side, o, i));
      SideOut(b, w0[i], ss);
    }
    forall i, j | 0 <= i < j < |w0| ensures w0[i] != w0[j] && InOrder(b, side, w0[i], w0[j]) {
      var x, y := Along(side, o, i), Along(side, o, j);
      RimPlace(b, p, ss, side, w0, x);
      RimPlace(b, p, ss, side, w0, y);
      if side < 0 { RimOrder(b, p, ss, x, y); } else { RimOrder(b, p, ss, y, x); }
    }
    forall r | 0 <= r < |b| && b[r] == ss && b[Next(|b|, r)] != ss && Side(b, r, ss, |b|) == side ensures r in w0 {
      FirstOut(b, ss, side, r);
      var x := PermHits(p, r);
      RimPlace(b, p, ss, side, w0, x);
      var i := if side < 0 then x - o else o - x;
      assert Along(side, o, i) == x && w0[i] == r;
    }
  }

  lemma SideOut(b: seq<Byte>, r: nat, ss: int)
    requires |b| >= 2 && r < |b| && b[r] == ss && b[Next(|b|, r)] != ss
    ensures Side(b, r, ss, |b|) == if b[Next(|b|, r)] < ss then -1 else 1
  {
    assert Side(b, r, ss, |b|) == Side(b, Next(|b|, r), ss, |b| - 1);
  }

  lemma RimOrder(b: seq<Byte>, p: seq<int>, ss: int, x: nat, y: nat)
    requires Bucketed(Keys(b), p) && |b| >= 2 && 0 <= ss < 256 && x < y < |p|
    requires b[p[x]] == ss == b[p[y]] && b[Next(|b|, p[x])] != ss
    requires forall c :: 0 <= c < 256 && c != ss ==> SmallSorted(b, p, ss, c)
    ensures p[x] != p[y] && Leq(b, p[x], p[y])
  {
    hide Less, Leq;
    var keys, c := Keys(b), b[Next(|b|, p[x])];
    BucketedSorted(keys, p, x, y);
    KeySplit(b, p[x]);
    if keys[p[x]] < keys[p[y]] {
      KeyOrder(b, p[x], p[y]);
    } else {
      BucketOf(keys, p, x, 256 * ss + c);
      BucketOf(keys, p, y, 256 * ss + c);
      assert SmallSorted(b, p, ss, c);
    }
  }

  // ----- what has been written -----

  /** Place x belongs to the small bucket [c, ss]. */
  ghost predicate InBucket(b: seq<Byte>, p: seq<int>, c: int, ss: int, x: int) {
    0 <= x < |p| && 0 <= p[x] < |b| && b[p[x]] == c && b[Next(|b|, p[x])] == ss
  }

  lemma InBucketIff(b: seq<Byte>, p: seq<int>, c: Byte, ss: Byte, x: int)
    requires Bucketed(Keys(b), p) && 0 <= x < |p|
    ensures InBucket(b, p, c, ss, x) <==> Less(Keys(b), 256 * (c as int) + ss) <= x < Less(Keys(b), 256 * (c as int) + ss + 1)
  {
    hide Less;
    KeyParts(b, p[x], c, ss);
    BucketOf(Keys(b), p, x, 256 * (c as int) + ss);
  }

  /** Place x has not been passed by the counter t. */
  ghost predicate Beyond(side: int, t: int, x: int) {
    if side < 0 then x >= t else x <= t
  }

  /**
    lists[c] has been written into the small bucket [c, ss] from its start (its end), up to tab[c].
    Buckets of done first bytes, and those of other second bytes, are as they were; so is, since f0,
    what the counters have not passed.
  */
  ghost predicate Written(b: seq<Byte>, ss: int, side: int, done: seq<bool>, p: seq<int>, f0: seq<int>, f: seq<int>,
                          tab: seq<int>, lists: seq<seq<int>>) {
    && |p| == |f0| == |f| == |b| && |done| == |tab| == |lists| == 256
    && (forall c :: 0 <= c < 256 ==> tab[c] == Along(side, Anchor(b, ss, side, c), |lists[c]|))
    && (forall c :: 0 <= c < 256 && done[c] ==> lists[c] == [])
    && (forall c, x :: 0 <= c < 256 && 0 <= x < |lists[c]| ==>
          InBucket(b, p, c, ss, Along(side, Anchor(b, ss, side, c), x)) && f[Along(side, Anchor(b, ss, side, c), x)] == lists[c][x])
    && (forall x :: 0 <= x < |p| ==> 0 <= p[x] < |b|)
    && (forall x :: 0 <= x < |p| && (b[Next(|b|, p[x])] != ss || done[b[p[x]]]) ==> f[x] == p[x])
    && (forall x :: 0 <= x < |p| && Beyond(side, tab[b[p[x]]], x) ==> f[x] == f0[x])
  }

  lemma WriteStart(b: seq<Byte>, ss: int, side: int, done: seq<bool>, p: seq<int>, f: seq<int>, tab: seq<int>)
    requires |p| == |f| == |b| && |done| == |tab| == 256 && Bucketed(Keys(b), p)
    requires forall c :: 0 <= c < 256 ==> tab[c] == Anchor(b, ss, side, c)
    requires forall x :: 0 <= x < |p| && (b[Next(|b|, p[x])] != ss || done[b[p[x]]]) ==> f[x] == p[x]
    ensures Written(b, ss, side, done, p, f, f, tab, seq(256, c => []))
  {
    hide Less, Key;
  }

  /** One more rotation for the bucket [c, ss]. */
  lemma WriteStep(b: seq<Byte>, ss: Byte, side: int, done: seq<bool>, p: seq<int>, f0: seq<int>, f: seq<int>,
                  tab: seq<int>, lists: seq<seq<int>>, c: Byte, k: int)
    requires Written(b, ss, side, done, p, f0, f, tab, lists) && Bucketed(Keys(b), p) && !done[c]
    requires InBucket(b, p, c, ss, tab[c])
    ensures Written(b, ss, side, done, p, f0, f[tab[c] := k], tab[c := Along(side, tab[c], 1)], lists[c := lists[c] + [k]])
  {
    hide Less, Key, Bucketed, Anchor;
    var t, f', tab', lists' := tab[c], f[tab[c] := k], tab[c := Along(side, tab[c], 1)], lists[c := lists[c] + [k]];
    forall d, x | 0 <= d < 256 && 0 <= x < |lists'[d]|
      ensures InBucket(b, p, d, ss, Along(side, Anchor(b, ss, side, d), x))
      ensures f'[Along(side, Anchor(b, ss, side, d), x)] == lists'[d][x]
    {
      var y := Along(side, Anchor(b, ss, side, d), x);
      if d == c && x == |lists[c]| {
        assert y == t;
      } else {
        assert lists'[d][x] == lists[d][x];
        assert InBucket(b, p, d, ss, y) && f[y] == lists[d][x];
        assert y != t;
      }
    }
  }

  // ----- scanning -----

  function Found(b: seq<Byte>, w: seq<int>, m: nat, done: seq<bool>, c: nat): seq<int>
    requires Rotations(b, w) && m <= |w| && c < |done|
  {
    if done[c] then [] else Preds(b, w[..m], c)
  }

  ghost predicate Listing(b: seq<Byte>, w: seq<int>, m: nat, done: seq<bool>, lists: seq<seq<int>>) {
    && Rotations(b, w) && m <= |w| && |lists| == |done| == 256
    && forall c :: 0 <= c < 256 ==> lists[c] == Found(b, w, m, done, c)
  }

  /** m entries of the window w have been scanned; what they gave is listed and written. */
  ghost predicate Scanning(b: seq<Byte>, ss: int, side: int, done: seq<bool>, p: seq<int>, w0: seq<int>, f0: seq<int>,
                           f: seq<int>, tab: seq<int>, lists: seq<seq<int>>, w: seq<int>, m: nat) {
    && |b| >= 2 && 0 <= ss < 256 && (side == -1 || side == 1) && |done| == 256 && !done[ss]
    && Bucketed(Keys(b), p) && Rim(b, p, ss, side, w0) && Growing(b, ss, side, w0, w, m)
    && Written(b, ss, side, done, p, f0, f, tab, lists) && Listing(b, w, m, done, lists)
  }

  lemma GrowingRotations(b: seq<Byte>, ss: int, side: int, w0: seq<int>, w: seq<int>, m: nat)
    requires Growing(b, ss, side, w0, w, m)
    ensures Rotations(b, w) && m <= |w| && Good(b, ss, side, w) && w == w0 + Preds(b, w[..m], ss)
  {
  }

  lemma ScanStart(b: seq<Byte>, ss: int, side: int, done: seq<bool>, p: seq<int>, w0: seq<int>, f: seq<int>,
                  tab: seq<int>)
    requires Bucketed(Keys(b), p) && |b| >= 2 && 0 <= ss < 256 && (side == -1 || side == 1) && Rim(b, p, ss, side, w0)
    requires forall c :: 0 <= c < 256 && c != ss ==> SmallSorted(b, p, ss, c)
    requires |p| == |f| == |b| && |done| == |tab| == 256 && !done[ss]
    requires forall c :: 0 <= c < 256 ==> tab[c] == Anchor(b, ss, side, c)
    requires forall x :: 0 <= x < |p| && (b[Next(|b|, p[x])] != ss || done[b[p[x]]]) ==> f[x] == p[x]
    ensures Scanning(b, ss, side, done, p, w0, f, f, tab, seq(256, c => []), w0, 0)
    ensures AllOut(b, ss, side, w0)
  {
    hide Less, Leq, Key, Bucketed, SmallSorted, Written, Anchor, Rim, AllOut, Growing, Side;
    RimBase(b, p, ss, side, w0);
    GrowStart(b, ss, side, w0);
    GrowingRotations(b, ss, side, w0, w0, 0);
    WriteStart(b, ss, side, done, p, f, tab);
    assert w0[..0] == [];
  }

  /** The place j of the scan holds the next entry of the window, and is behind what was written when that was the last. */
  lemma ScanPlace(b: seq<Byte>, ss: Byte, side: int, done: seq<bool>, p: seq<int>, w0: seq<int>, f0: seq<int>,
                  f: seq<int>, tab: seq<int>, lists: seq<seq<int>>, w: seq<int>, m: nat, j: int)
    requires Scanning(b, ss, side, done, p, w0, f0, f, tab, lists, w, m) && j == Along(side, Origin(b, ss, side), m)
    ensures |tab| == 256 && |f| == |b| && |done| == 256 && m <= |w|
    ensures m < |w| <==> if side < 0 then j < tab[ss] else j > tab[ss]
    ensures m < |w| ==> 0 <= j < |f| && 0 <= w[m] < |b| && f[j] == w[m]
  {
    hide Less, Key, Bucketed, Growing, Preds, Origin, Anchor, Side, Leq, InOrder;
    GrowingRotations(b, ss, side, w0, w, m);
    assert lists[ss] == Preds(b, w[..m], ss);
    if m < |w0| {
      assert w[m] == w0[m] == p[j];
      RimPlace(b, p, ss, side, w0, j);
      assert b[Next(|b|, p[j])] != ss;
    } else if m < |w| {
      assert w[m] == lists[ss][m - |w0|];
      assert Along(side, Anchor(b, ss, side, ss), m - |w0|) == j;
    }
  }

  /** A window has no more predecessors than their bucket has places. */
  lemma WindowRoom(b: seq<Byte>, ss: Byte, side: int, w: seq<int>, c: Byte)
    requires Good(b, ss, side, w)
    ensures |Preds(b, w, c)| <= Less(Keys(b), 256 * (c as int) + ss + 1) - Less(Keys(b), 256 * (c as int) + ss)
  {
    hide Less, Preds, Side, Leq, InOrder, Listed, SideSet, PairSet;
    PredsListed(b, ss, side, w, c);
    ListedSize(b, ss, side, c, Preds(b, w, c));
    PairCount(b, ss, c);
    SideInPair(b, ss, side, c);
  }

  /** There is a place left in the bucket of the rotation found. */
  lemma ScanRoom(b: seq<Byte>, ss: Byte, side: int, w0: seq<int>, w: seq<int>, m: nat, c: Byte)
    requires Growing(b, ss, side, w0, w, m) && m < |w| && |b| >= 2 && side != 0 && b[Pred(|b|, w[m])] == c
    ensures Rotations(b, w)
    ensures |Preds(b, w[..m], c)| < Less(Keys(b), 256 * (c as int) + ss + 1) - Less(Keys(b), 256 * (c as int) + ss)
  {
    hide Less, Growing, Good, Side, Leq, InOrder, Preds;
    GrowingRotations(b, ss, side, w0, w, m);
    GrowStep(b, ss, side, w0, w, m);
    var k := Pred(|b|, w[m]);
    var w' := if b[k] == ss then w + [k] else w;
    GrowingRotations(b, ss, side, w0, w', m + 1);
    PredsNext(b, w, m, c);
    assert w'[..m + 1] == w[..m + 1];
    PredsMonotone(b, w', c, m + 1, |w'|);
    assert w'[..|w'|] == w';
    WindowRoom(b, ss, side, w', c);
  }

  lemma SideInPair(b: seq<Byte>, ss: int, side: int, c: int)
    ensures |SideSet(b, ss, side, c)| <= |PairSet(b, ss, c)|
  {
    SubsetSize(SideSet(b, ss, side, c), PairSet(b, ss, c));
  }

  lemma AnchorBucket(b: seq<Byte>, p: seq<int>, ss: Byte, side: int, c: Byte, x: nat)
    requires Bucketed(Keys(b), p) && x < Less(Keys(b), 256 * (c as int) + ss + 1) - Less(Keys(b), 256 * (c as int) + ss)
    ensures InBucket(b, p, c, ss, Along(side, Anchor(b, ss, side, c), x))
  {
    hide Less, Bucketed, InBucket;
    BucketSizes(b, p);
    InBucketIff(b, p, c, ss, Along(side, Anchor(b, ss, side, c), x));
  }

  lemma BucketSizes(b: seq<Byte>, p: seq<int>)
    requires Bucketed(Keys(b), p)
    ensures |p| == |b| && IsPerm(p)
  {
  }

  lemma WrittenSizes(b: seq<Byte>, ss: int, side: int, done: seq<bool>, p: seq<int>, f0: seq<int>, f: seq<int>,
                     tab: seq<int>,
                     lists: seq<seq<int>>)
    requires Written(b, ss, side, done, p, f0, f, tab, lists)
    ensures |p| == |f0| == |f| == |b| && |done| == |tab| == |lists| == 256
  {
  }

  /** One entry of the window scanned: its predecessor goes to its bucket, unless that big bucket is done. */
  lemma ScanStep(b: seq<Byte>, ss: Byte, side: int, done: seq<bool>, p: seq<int>, w0: seq<int>, f0: seq<int>,
                 f: seq<int>, tab: seq<int>, lists: seq<seq<int>>, w: seq<int>, m: nat, k: nat, c: Byte)
    returns (lists': seq<seq<int>>, w': seq<int>)
    requires Scanning(b, ss, side, done, p, w0, f0, f, tab, lists, w, m) && m < |w| && k == Pred(|b|, w[m]) && c == b[k]
    ensures |tab| == 256 && |done| == 256
    ensures !done[c] ==> 0 <= tab[c] < |f|
    ensures !done[c] ==>
              Scanning(b, ss, side, done, p, w0, f0, f[tab[c] := k], tab[c := Along(side, tab[c], 1)], lists', w', m + 1)
    ensures done[c] ==> Scanning(b, ss, side, done, p, w0, f0, f, tab, lists', w', m + 1)
  {
    hide Less, Key, Bucketed, Growing, Preds, Anchor, Side, Leq, InOrder, Written, Rim;
    WrittenSizes(b, ss, side, done, p, f0, f, tab, lists);
    GrowingRotations(b, ss, side, w0, w, m);
    GrowStep(b, ss, side, w0, w, m);
    w' := if c == ss then w + [k] else w;
    GrowingRotations(b, ss, side, w0, w', m + 1);
    assert w'[..m + 1] == w[..m + 1];
    forall d | 0 <= d < 256 ensures Found(b, w', m + 1, done, d) == if d == c && !done[c] then lists[d] + [k] else lists[d] {
      PredsNext(b, w, m, d);
    }
    if done[c] {
      lists' := lists;
    } else {
      lists' := lists[c := lists[c] + [k]];
      WriteRoom(b, ss, side, done, p, f0, f, tab, lists, w0, w, m, c);
      WriteStep(b, ss, side, done, p, f0, f, tab, lists, c, k);
    }
  }

  lemma WriteRoom(b: seq<Byte>, ss: Byte, side: int, done: seq<bool>, p: seq<int>, f0: seq<int>, f: seq<int>,
                  tab: seq<int>,
                  lists: seq<seq<int>>, w0: seq<int>, w: seq<int>, m: nat, c: Byte)
    requires Written(b, ss, side, done, p, f0, f, tab, lists) && Bucketed(Keys(b), p) && side != 0 && |b| >= 2
    requires Growing(b, ss, side, w0, w, m) && m < |w| && Rotations(b, w) && b[Pred(|b|, w[m])] == c
    requires lists[c] == Preds(b, w[..m], c)
    ensures |p| == |f| && InBucket(b, p, c, ss, tab[c])
  {
    hide Less, Bucketed, Growing, Anchor;
    ScanRoom(b, ss, side, w0, w, m, c);
    AnchorBucket(b, p, ss, side, c, |lists[c]|);
  }

  // ----- both scans done -----

  /** The small bucket at st, ..., en - 1 holds L from its start and R from its end. */
  ghost predicate Halves(f: seq<int>, st: int, en: int, L: seq<int>, R: seq<int>) {
    && 0 <= st <= en <= |f| && en - st == |L| + |R|
    && (forall x :: st <= x < st + |L| ==> f[x] == L[x - st])
    && (forall x :: st + |L| <= x < en ==> f[x] == R[en - 1 - x])
  }

  /** A stretch of different rotations that start with c and ss, in order. */
  ghost predicate Filled(b: seq<Byte>, f: seq<int>, c: int, ss: int, st: int, en: int) {
    && 0 <= st <= en <= |f|
    && (forall x :: st <= x < en ==> 0 <= f[x] < |b| && InBucket(b, f, c, ss, x))
    && (forall x, y :: st <= x < y < en ==> f[x] != f[y] && Leq(b, f[x], f[y]))
  }

  lemma HalvesOrder(b: seq<Byte>, ss: int, c: int, l: nat, r: nat)
    requires l < |b| && r < |b| && b[l] == c == b[r] && Side(b, Next(|b|, l), ss, |b|) == -1 && Side(b, Next(|b|, r), ss, |b|) == 1
    ensures l != r && Leq(b, l, r)
  {
    var x, y := Next(|b|, l), Next(|b|, r);
    SideOrder(b, x, y, ss, |b|);
    PredNext(|b|, l);
    PredNext(|b|, r);
    PredsOrder(b, -1, x, y);
  }

  lemma HalvesFilled(b: seq<Byte>, f: seq<int>, ss: int, c: int, st: int, en: int, L: seq<int>, R: seq<int>)
    requires Halves(f, st, en, L, R) && Listed(b, ss, -1, c, L) && Listed(b, ss, 1, c, R)
    ensures Filled(b, f, c, ss, st, en)
  {
    hide Leq, Side;
    forall x, y | st <= x < y < en ensures f[x] != f[y] && Leq(b, f[x], f[y]) {
      if x < st + |L| && y < st + |L| {
        assert InOrder(b, -1, L[x - st], L[y - st]);
      } else if x < st + |L| {
        HalvesOrder(b, ss, c, L[x - st], R[en - 1 - y]);
      } else {
        assert InOrder(b, 1, R[en - 1 - y], R[en - 1 - x]);
      }
    }
  }

  lemma {:induction false} SideAllEqual(b: seq<Byte>, r: nat, ss: int, h: nat)
    requires r < |b| && forall i :: 0 <= i < |b| ==> b[i] == ss
    ensures Side(b, r, ss, h) == 0
    decreases h
  {
    if h > 0 { SideAllEqual(b, Next(|b|, r), ss, h - 1); }
  }

  lemma {:induction false} CmpAllEqual(b: seq<Byte>, x: nat, y: nat, ss: int, h: nat)
    requires x < |b| && y < |b| && forall i :: 0 <= i < |b| ==> b[i] == ss
    ensures Cmp(b, x, y, h) == 0
    decreases h
  {
    if h > 0 { CmpAllEqual(b, Next(|b|, x), Next(|b|, y), ss, h - 1); }
  }

  /** What a finished scan has listed. */
  lemma SideEnd(b: seq<Byte>, ss: int, side: int, done: seq<bool>, p: seq<int>, w0: seq<int>, f0: seq<int>,
                f: seq<int>, tab: seq<int>, lists: seq<seq<int>>, w: seq<int>, c: Byte)
    requires Scanning(b, ss, side, done, p, w0, f0, f, tab, lists, w, |w|) && AllOut(b, ss, side, w0) && !done[c]
    ensures |lists| == 256 && Listed(b, ss, side, c, lists[c]) && |lists[c]| == |SideSet(b, ss, side, c)|
  {
    hide Less, Bucketed, Growing, Written, Rim, Good, Side, Leq, Listed, AllOut, Preds, SideSet;
    assert w[..|w|] == w;
    PredsComplete(b, ss, side, w0, w, c);
    GrowingRotations(b, ss, side, w0, w, |w|);
    PredsListed(b, ss, side, w, c);
  }

  /** When there is a byte other than ss, the two scans meet: a bucket is filled exactly. */
  lemma ScansMeet(b: seq<Byte>, ss: Byte, done: seq<bool>, p: seq<int>, wl0: seq<int>, f1: seq<int>, tl: seq<int>,
                  L: seq<seq<int>>,
                  wl: seq<int>, wr0: seq<int>, f2: seq<int>, tr: seq<int>, R: seq<seq<int>>, wr: seq<int>, c: Byte)
    requires Scanning(b, ss, -1, done, p, wl0, p, f1, tl, L, wl, |wl|) && AllOut(b, ss, -1, wl0)
    requires Scanning(b, ss, 1, done, p, wr0, f1, f2, tr, R, wr, |wr|) && AllOut(b, ss, 1, wr0)
    requires !done[c] && exists i :: 0 <= i < |b| && b[i] != ss
    ensures |tl| == 256 && |tr| == 256 && tl[c] - 1 == tr[c]
    ensures Filled(b, f2, c, ss, Less(Keys(b), 256 * (c as int) + ss), Less(Keys(b), 256 * (c as int) + ss + 1))
  {
    hide Less, Bucketed, Growing, Written, Listing, Rim, Side, Leq, Listed, AllOut, SideSet, PairSet, Filled, Halves;
    SideEnd(b, ss, -1, done, p, wl0, p, f1, tl, L, wl, c);
    SideEnd(b, ss, 1, done, p, wr0, f1, f2, tr, R, wr, c);
    TwoSides(b, ss, c);
    PairCount(b, ss, c);
    ScansHalves(b, ss, done, p, f1, tl, L, f2, tr, R, c);
    HalvesFilled(b, f2, ss, c, Less(Keys(b), 256 * (c as int) + ss), Less(Keys(b), 256 * (c as int) + ss + 1), L[c], R[c]);
  }

  lemma ScansHalves(b: seq<Byte>, ss: Byte, done: seq<bool>, p: seq<int>, f1: seq<int>, tl: seq<int>, L: seq<seq<int>>,
                    f2: seq<int>, tr: seq<int>, R: seq<seq<int>>, c: Byte)
    requires Written(b, ss, -1, done, p, p, f1, tl, L) && Written(b, ss, 1, done, p, f1, f2, tr, R) && Bucketed(Keys(b), p)
    requires !done[c] && |L[c]| + |R[c]| == Less(Keys(b), 256 * (c as int) + ss + 1) - Less(Keys(b), 256 * (c as int) + ss)
    ensures Halves(f2, Less(Keys(b), 256 * (c as int) + ss), Less(Keys(b), 256 * (c as int) + ss + 1), L[c], R[c])
    ensures |tl| == 256 && |tr| == 256 && tl[c] - 1 == tr[c]
  {
    hide Less, Bucketed;
    var st, en := Less(Keys(b), 256 * (c as int) + ss), Less(Keys(b), 256 * (c as int) + ss + 1);
    forall x | st <= x < st + |L[c]| ensures f2[x] == L[c][x - st] {
      InBucketIff(b, p, c, ss, x);
      assert Along(-1, Anchor(b, ss, -1, c), x - st) == x;
      assert f1[x] == L[c][x - st];
      assert Beyond(1, tr[c], x);
    }
    forall x | st + |L[c]| <= x < en ensures f2[x] == R[c][en - 1 - x] {
      assert Along(1, Anchor(b, ss, 1, c), en - 1 - x) == x;
    }
  }

  /** In a block of one byte only, the scans find nothing, and there is nothing to order. */
  lemma NothingToScan(b: seq<Byte>, ss: Byte, done: seq<bool>, p: seq<int>, wl0: seq<int>, f1: seq<int>, tl: seq<int>,
                      L: seq<seq<int>>,
                      wl: seq<int>, wr0: seq<int>, f2: seq<int>, tr: seq<int>, R: seq<seq<int>>, wr: seq<int>)
    requires Scanning(b, ss, -1, done, p, wl0, p, f1, tl, L, wl, |wl|)
    requires Scanning(b, ss, 1, done, p, wr0, f1, f2, tr, R, wr, |wr|)
    requires forall i :: 0 <= i < |b| ==> b[i] == ss
    ensures f2 == p && |tl| == 256 && |tr| == 256 && tl[ss] == 0 && tr[ss] == |b| - 1
  {
    hide Less, Growing, Written, Rim, Leq;
    NoWindow(b, ss, -1, wl0, wl);
    NoWindow(b, ss, 1, wr0, wr);
    WrittenSizes(b, ss, -1, done, p, p, f1, tl, L);
    WrittenSizes(b, ss, 1, done, p, f1, f2, tr, R);
    Untouched(b, ss, -1, done, p, p, f1, tl, L);
    Untouched(b, ss, 1, done, p, f1, f2, tr, R);
    forall i | 0 <= i < |b| ensures Keys(b)[i] == 256 * (ss as int) + ss {
      KeyParts(b, i, ss, ss);
    }
    LessAll(Keys(b), 256 * (ss as int) + ss);
    LessAll(Keys(b), 256 * (ss as int) + ss + 1);
  }

  lemma NoWindow(b: seq<Byte>, ss: Byte, side: int, w0: seq<int>, w: seq<int>)
    requires Growing(b, ss, side, w0, w, |w|) && side != 0 && forall i :: 0 <= i < |b| ==> b[i] == ss
    ensures w == []
  {
    hide Leq, Side, InOrder;
    if w != [] { SideAllEqual(b, w[0], ss, |b|); }
  }

  lemma Untouched(b: seq<Byte>, ss: Byte, side: int, done: seq<bool>, p: seq<int>, f0: seq<int>, f: seq<int>,
                  tab: seq<int>,
                  lists: seq<seq<int>>)
    requires Written(b, ss, side, done, p, f0, f, tab, lists) && Bucketed(Keys(b), p)
    requires forall c :: 0 <= c < 256 ==> lists[c] == []
    requires forall i :: 0 <= i < |b| ==> b[i] == ss
    ensures f == f0 && tab[ss] == Anchor(b, ss, side, ss)
  {
    hide Less, Bucketed;
    forall x | 0 <= x < |p| ensures f[x] == f0[x] {
      InBucketIff(b, p, ss, ss, x);
      assert InBucket(b, p, ss, ss, x);
    }
  }

  /** The order after both scans: the buckets [c, ss] of big buckets not done are filled, the others unchanged. */
  ghost predicate Scanned(b: seq<Byte>, ss: int, done: seq<bool>, p: seq<int>, f: seq<int>) {
    && |p| == |f| == |b| && |done| == 256
    && (forall x :: 0 <= x < |p| ==> 0 <= p[x] < |b|)
    && (forall x :: 0 <= x < |p| && (b[Next(|b|, p[x])] != ss || done[b[p[x]]]) ==> f[x] == p[x])
    && (forall c :: 0 <= c < 256 && !done[c] ==>
          Filled(b, f, c, ss, Less(Keys(b), 256 * c + ss), Less(Keys(b), 256 * c + ss + 1)))
  }

  /** What a bucket of equal rotations is like. */
  lemma EqualFilled(b: seq<Byte>, p: seq<int>, c: Byte, ss: Byte)
    requires Bucketed(Keys(b), p) && forall i :: 0 <= i < |b| ==> b[i] == ss
    ensures Filled(b, p, c, ss, Less(Keys(b), 256 * (c as int) + ss), Less(Keys(b), 256 * (c as int) + ss + 1))
  {
    hide Less, Cmp;
    var st, en := Less(Keys(b), 256 * (c as int) + ss), Less(Keys(b), 256 * (c as int) + ss + 1);
    LessMonotone(Keys(b), 256 * (c as int) + ss, 256 * (c as int) + ss + 1);
    forall x | st <= x < en ensures InBucket(b, p, c, ss, x) {
      InBucketIff(b, p, c, ss, x);
    }
    forall x, y | st <= x < y < en ensures p[x] != p[y] && Leq(b, p[x], p[y]) {
      CmpAllEqual(b, p[x], p[y], ss, |b|);
    }
  }

  lemma ScanEnd(b: seq<Byte>, ss: Byte, done: seq<bool>, p: seq<int>, wl0: seq<int>, f1: seq<int>, tl: seq<int>,
                L: seq<seq<int>>,
                wl: seq<int>, wr0: seq<int>, f2: seq<int>, tr: seq<int>, R: seq<seq<int>>, wr: seq<int>)
    requires Scanning(b, ss, -1, done, p, wl0, p, f1, tl, L, wl, |wl|) && AllOut(b, ss, -1, wl0)
    requires Scanning(b, ss, 1, done, p, wr0, f1, f2, tr, R, wr, |wr|) && AllOut(b, ss, 1, wr0)
    ensures Scanned(b, ss, done, p, f2)
    ensures |tl| == 256 && |tr| == 256
    ensures tl[ss] - 1 == tr[ss] || (tl[ss] == 0 && tr[ss] == |b| - 1)
  {
    hide Less, Bucketed, Growing, Listing, Rim, AllOut, Filled;
    forall c: int | 0 <= c < 256 && !done[c]
      ensures Filled(b, f2, c, ss, Less(Keys(b), 256 * c + ss), Less(Keys(b), 256 * c + ss + 1))
    {
      if exists i :: 0 <= i < |b| && b[i] != ss {
        ScansMeet(b, ss, done, p, wl0, f1, tl, L, wl, wr0, f2, tr, R, wr, c);
      } else {
        NothingToScan(b, ss, done, p, wl0, f1, tl, L, wl, wr0, f2, tr, R, wr);
        EqualFilled(b, p, c, ss);
      }
    }
    if exists i :: 0 <= i < |b| && b[i] != ss {
      ScansMeet(b, ss, done, p, wl0, f1, tl, L, wl, wr0, f2, tr, R, wr, ss);
    } else {
      NothingToScan(b, ss, done, p, wl0, f1, tl, L, wl, wr0, f2, tr, R, wr);
    }
  }

  // ----- what this does to the order -----

  lemma ScannedKey(b: seq<Byte>, ss: Byte, done: seq<bool>, p: seq<int>, f: seq<int>, x: nat)
    requires Scanned(b, ss, done, p, f) && Bucketed(Keys(b), p) && x < |f|
    ensures 0 <= f[x] < |b| && 0 <= p[x] < |b| && Key(b, f[x]) == Key(b, p[x])
  {
    hide Less, Bucketed, Leq;
    var c := b[p[x]];
    if b[Next(|b|, p[x])] == ss && !done[c] {
      InBucketIff(b, p, c, ss, x);
      assert InBucket(b, f, c, ss, x);
    }
  }

  /** Two places in one small bucket hold different rotations, in order if the bucket was filled or in order before. */
  lemma ScannedPair(b: seq<Byte>, ss: Byte, done: seq<bool>, p: seq<int>, f: seq<int>, x: nat, y: nat)
    requires Scanned(b, ss, done, p, f) && Bucketed(Keys(b), p) && x < y < |f|
    ensures 0 <= f[x] < |b| && 0 <= f[y] < |b| && 0 <= p[x] < |b| && 0 <= p[y] < |b|
    ensures f[x] != f[y]
    ensures Key(b, p[x]) == Key(b, p[y]) && b[Next(|b|, p[x])] == ss && !done[b[p[x]]] ==> Leq(b, f[x], f[y])
  {
    hide Less, Leq;
    ScannedKey(b, ss, done, p, f, x);
    ScannedKey(b, ss, done, p, f, y);
    KeySplit(b, p[x]);
    KeySplit(b, p[y]);
    var c := b[p[x]];
    if Key(b, p[x]) == Key(b, p[y]) && b[Next(|b|, p[x])] == ss && !done[c] {
      InBucketIff(b, p, c, ss, x);
      InBucketIff(b, p, c, ss, y);
      assert InBucket(b, p, c, ss, x) && InBucket(b, p, c, ss, y);
    }
  }

  lemma ScannedBucketed(b: seq<Byte>, ss: Byte, done: seq<bool>, p: seq<int>, f: seq<int>)
    requires Scanned(b, ss, done, p, f) && Bucketed(Keys(b), p)
    ensures Bucketed(Keys(b), f)
  {
    hide Less, Leq, Scanned;
    BucketSizes(b, p);
    ScannedSizes(b, ss, done, p, f);
    forall x | 0 <= x < |f| ensures 0 <= f[x] < |f| && Less(Keys(b), Keys(b)[f[x]]) <= x < Less(Keys(b), Keys(b)[f[x]] + 1) {
      ScannedKey(b, ss, done, p, f, x);
      assert Keys(b)[f[x]] == Keys(b)[p[x]];
    }
    forall x, y | 0 <= x < y < |f| ensures f[x] != f[y] {
      ScannedPair(b, ss, done, p, f, x, y);
    }
  }

  lemma ScannedSizes(b: seq<Byte>, ss: Byte, done: seq<bool>, p: seq<int>, f: seq<int>)
    requires Scanned(b, ss, done, p, f)
    ensures |p| == |f| == |b| && |done| == 256
  {
  }

  /** The small buckets that are in order afterwards. */
  lemma ScannedSorted(b: seq<Byte>, ss: Byte, done: seq<bool>, p: seq<int>, f: seq<int>, c: Byte, d: Byte)
    requires Scanned(b, ss, done, p, f) && Bucketed(Keys(b), p)
    requires (d == ss && !done[c]) || SmallSorted(b, p, c, d)
    ensures SmallSorted(b, f, c, d)
  {
    hide Less, Leq, Bucketed;
    if d == ss && !done[c] {
      assert Filled(b, f, c, ss, Less(Keys(b), 256 * (c as int) + ss), Less(Keys(b), 256 * (c as int) + ss + 1));
    } else {
      var st, en := Less(Keys(b), 256 * (c as int) + d), Less(Keys(b), 256 * (c as int) + d + 1);
      forall x | st <= x < en ensures f[x] == p[x] {
        InBucketIff(b, p, c, d, x);
        assert InBucket(b, p, c, d, x);
      }
      SmallRange(b, c, d);
    }
  }

  lemma SmallRange(b: seq<Byte>, c: Byte, d: Byte)
    ensures 0 <= Less(Keys(b), 256 * (c as int) + d) <= Less(Keys(b), 256 * (c as int) + d + 1) <= |b|
  {
    LessMonotone(Keys(b), 256 * (c as int) + d, 256 * (c as int) + d + 1);
  }

  // ----- the table of bucket starts -----

  /** ftab without the flag. */
  function Clear(v: int): int {
    v % SETMASK
  }

  predicate Flagged(v: int) {
    v >= SETMASK
  }

  /** ftab holds where every small bucket starts, some entries with the flag. */
  ghost predicate Starts(b: seq<Byte>, ftab: seq<int>) {
    && |ftab| == RADIX + 1
    && forall q :: 0 <= q <= RADIX ==> ftab[q] == Less(Keys(b), q) || ftab[q] == Less(Keys(b), q) + SETMASK
  }

  lemma StartOf(b: seq<Byte>, ftab: seq<int>, q: int)
    requires Starts(b, ftab) && 0 <= q <= RADIX && |b| <= 900000
    ensures |ftab| == RADIX + 1 && 0 <= Clear(ftab[q]) == Less(Keys(b), q) <= |b|
  {
    hide Less;
  }

  // ----- the scans -----

  /** The scan of the big bucket ss from its start, up to what it has itself put into [ss, ss]. */
  method ScanUp(ptr: array<int>, block: array<int>, bigDone: array<bool>, copyStart: array<int>, nblock: int,
                ss: Byte, start: int,
                ghost b: seq<Byte>, ghost p: seq<int>, ghost w0: seq<int>) returns (ghost lists: seq<seq<int>>, ghost w: seq<int>)
    requires ptr != block && ptr != copyStart && block != copyStart && nblock == |b| <= block.Length && ptr.Length == nblock
    requires forall i :: 0 <= i < nblock ==> block[i] == b[i]
    requires bigDone.Length == copyStart.Length == 256 && start == Origin(b, ss, -1)
    requires Scanning(b, ss, -1, bigDone[..], p, w0, ptr[..], ptr[..], copyStart[..], seq(256, c => []), w0, 0)
    modifies ptr, copyStart
    ensures Scanning(b, ss, -1, bigDone[..], p, w0, old(ptr[..]), ptr[..], copyStart[..], lists, w, |w|)
  {
    hide Scanning, Origin;
    ghost var f0, done, m := ptr[..], bigDone[..], 0;
    lists, w := seq(256, c => []), w0;
    var j := start;
    while j < copyStart[ss]
      invariant j == Along(-1, Origin(b, ss, -1), m)
      invariant Scanning(b, ss, -1, done, p, w0, f0, ptr[..], copyStart[..], lists, w, m)
      decreases nblock - j
    {
      ghost var f, tab := ptr[..], copyStart[..];
      ScanPlace(b, ss, -1, done, p, w0, f0, f, tab, lists, w, m, j);
      var k := ptr[j] - 1;
      if k < 0 { k := k + nblock; }
      var c1 := block[k];
      lists, w := ScanStep(b, ss, -1, done, p, w0, f0, f, tab, lists, w, m, k, c1);
      if !bigDone[c1] {
        var to := copyStart[c1];
        ptr[to] := k;
        copyStart[c1] := to + 1;
        assert ptr[..] == f[to := k] && copyStart[..] == tab[c1 := Along(-1, to, 1)];
      }
      j, m := j + 1, m + 1;
    }
    ScanPlace(b, ss, -1, done, p, w0, f0, ptr[..], copyStart[..], lists, w, m, j);
  }

  /** The scan from the end of the big bucket, down to what it has itself put into [ss, ss]. */
  method ScanDown(ptr: array<int>, block: array<int>, bigDone: array<bool>, copyEnd: array<int>, nblock: int,
                  ss: Byte, start: int,
                  ghost b: seq<Byte>, ghost p: seq<int>, ghost w0: seq<int>) returns (ghost lists: seq<seq<int>>, ghost w: seq<int>)
    requires ptr != block && ptr != copyEnd && block != copyEnd && nblock == |b| <= block.Length && ptr.Length == nblock
    requires forall i :: 0 <= i < nblock ==> block[i] == b[i]
    requires bigDone.Length == copyEnd.Length == 256 && start == Origin(b, ss, 1)
    requires Scanning(b, ss, 1, bigDone[..], p, w0, ptr[..], ptr[..], copyEnd[..], seq(256, c => []), w0, 0)
    modifies ptr, copyEnd
    ensures Scanning(b, ss, 1, bigDone[..], p, w0, old(ptr[..]), ptr[..], copyEnd[..], lists, w, |w|)
  {
    hide Scanning, Origin;
    ghost var f0, done, m := ptr[..], bigDone[..], 0;
    lists, w := seq(256, c => []), w0;
    var j := start;
    while j > copyEnd[ss]
      invariant j == Along(1, Origin(b, ss, 1), m)
      invariant Scanning(b, ss, 1, done, p, w0, f0, ptr[..], copyEnd[..], lists, w, m)
      decreases j
    {
      ghost var f, tab := ptr[..], copyEnd[..];
      ScanPlace(b, ss, 1, done, p, w0, f0, f, tab, lists, w, m, j);
      var k := ptr[j] - 1;
      if k < 0 { k := k + nblock; }
      var c1 := block[k];
      lists, w := ScanStep(b, ss, 1, done, p, w0, f0, f, tab, lists, w, m, k, c1);
      if !bigDone[c1] {
        var to := copyEnd[c1];
        ptr[to] := k;
        copyEnd[c1] := to - 1;
        assert ptr[..] == f[to := k] && copyEnd[..] == tab[c1 := Along(1, to, 1)];
      }
      j, m := j - 1, m + 1;
    }
    ScanPlace(b, ss, 1, done, p, w0, f0, ptr[..], copyEnd[..], lists, w, m, j);
  }

  /** The first loop of Step 2. */
  method CopyBounds(ftab: array<int>, ss: Byte, ghost b: seq<Byte>) returns (copyStart: array<int>, copyEnd: array<int>)
    requires Starts(b, ftab[..]) && |b| <= 900000
    ensures fresh(copyStart) && fresh(copyEnd) && copyStart != copyEnd && copyStart.Length == copyEnd.Length == 256
    ensures forall c :: 0 <= c < 256 ==> copyStart[c] == Anchor(b, ss, -1, c) && copyEnd[c] == Anchor(b, ss, 1, c)
  {
    hide Less, Starts;
    copyStart := new int[256];
    copyEnd := new int[256];
    for j := 0 to 256
      invariant forall c :: 0 <= c < j ==> copyStart[c] == Anchor(b, ss, -1, c) && copyEnd[c] == Anchor(b, ss, 1, c)
    {
      StartOf(b, ftab[..], 256 * j + ss);
      StartOf(b, ftab[..], 256 * j + ss + 1);
      copyStart[j] := Clear(ftab[256 * j + ss]);
      copyEnd[j] := Clear(ftab[256 * j + ss + 1]) - 1;
    }
  }

  /**
    Step 2: with the small buckets [ss, c] in order for c other than ss, the scans put the small
    buckets [c, ss] in order, c = ss included, for every big bucket c that is not done. The
    condition of AssertH 1007 holds.
  */
  method Synthesise(ptr: array<int>, block: array<int>, bigDone: array<bool>, ftab: array<int>, nblock: int, ss: Byte,
                    ghost b: seq<Byte>)
    requires ptr != block && ptr != ftab && 2 <= nblock == |b| <= 900000 && nblock <= block.Length && ptr.Length == nblock
    requires forall i :: 0 <= i < nblock ==> block[i] == b[i]
    requires Starts(b, ftab[..]) && Bucketed(Keys(b), ptr[..]) && bigDone.Length == 256 && !bigDone[ss]
    requires forall c :: 0 <= c < 256 && c != ss ==> SmallSorted(b, ptr[..], ss, c)
    modifies ptr
    ensures Scanned(b, ss, bigDone[..], old(ptr[..]), ptr[..])
  {
    hide Scanning, Starts, SmallSorted, Less, Bucketed, Anchor, AllOut, Rim, Scanned;
    ghost var p, done := ptr[..], bigDone[..];
    StartOf(b, ftab[..], 256 * (ss as int));
    StartOf(b, ftab[..], 256 * (ss as int) + 256);
    var first, last := Clear(ftab[256 * (ss as int)]), Clear(ftab[256 * (ss as int) + 256]) - 1;
    var copyStart, copyEnd := CopyBounds(ftab, ss, b);
    ghost var wl0 := RimExists(b, p, ss, -1);
    ghost var wr0 := RimExists(b, p, ss, 1);
    BucketSizes(b, p);
    ScanStart(b, ss, -1, done, p, wl0, p, copyStart[..]);
    ghost var L, wl := ScanUp(ptr, block, bigDone, copyStart, nblock, ss, first, b, p, wl0);
    ghost var f1 := ptr[..];
    ScanFrame(b, ss, -1, done, p, wl0, p, f1, copyStart[..], L, wl, |wl|);
    ScanStart(b, ss, 1, done, p, wr0, f1, copyEnd[..]);
    ghost var R, wr := ScanDown(ptr, block, bigDone, copyEnd, nblock, ss, last, b, p, wr0);
    ScanEnd(b, ss, done, p, wl0, f1, copyStart[..], L, wl, wr0, ptr[..], copyEnd[..], R, wr);
    assert copyStart[ss] - 1 == copyEnd[ss] || (copyStart[ss] == 0 && copyEnd[ss] == nblock - 1);
  }

  lemma ScanFrame(b: seq<Byte>, ss: int, side: int, done: seq<bool>, p: seq<int>, w0: seq<int>, f0: seq<int>,
                  f: seq<int>, tab: seq<int>, lists: seq<seq<int>>, w: seq<int>, m: nat)
    requires Scanning(b, ss, side, done, p, w0, f0, f, tab, lists, w, m)
    ensures |p| == |f| == |b| && |done| == 256 && (forall x :: 0 <= x < |p| ==> 0 <= p[x] < |b|)
    ensures forall x :: 0 <= x < |p| && (b[Next(|b|, p[x])] != ss || done[b[p[x]]]) ==> f[x] == p[x]
  {
    hide Bucketed, Rim, Growing, Listing;
  }
}
