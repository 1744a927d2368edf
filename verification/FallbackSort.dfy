/**
  dep/bzip2/blocksort.c, fallbackSort: a prefix-doubling sort of the rotations of a block.
  Each pass turns "ordered by the first H characters, with header bits exactly where those
  characters change" into the same statement for 2H.
*/
module FallbackSort {
  import opened Common
  import opened Rotation
  import opened Counting
  import opened Bitmap
  import opened Partition
  import opened FallbackQSort

  /** `f` lists the rotations in order of their first H characters; `h` marks where these change. */
  ghost predicate Level(b: seq<Byte>, f: seq<int>, h: seq<bool>, H: nat) {
    && |f| == |b| > 0 && IsPerm(f)
    && |h| > |b| + 1 && h[0] && h[|b|] && !h[|b| + 1]
    && forall i :: 0 < i < |b| ==> Cmp(b, f[i - 1], f[i], H) <= 0 && (h[i] <==> Cmp(b, f[i - 1], f[i], H) != 0)
  }

  /** The header of the bucket of slot i. */
  ghost function Start(h: seq<bool>, i: nat): (s: nat)
    requires i < |h|
    ensures s <= i
  {
    if i == 0 || h[i] then i else Start(h, i - 1)
  }

  lemma {:induction false} LevelPairs(b: seq<Byte>, f: seq<int>, h: seq<bool>, H: nat, i: nat, j: nat)
    requires Level(b, f, h, H) && i <= j < |b|
    ensures Cmp(b, f[i], f[j], H) <= 0 && Start(h, i) <= Start(h, j)
    ensures Cmp(b, f[i], f[j], H) == 0 <==> Start(h, i) == Start(h, j)
    decreases j
  {
    if i == j {
      CmpSelf(b, f[i], H);
    } else {
      LevelPairs(b, f, h, H, i, j - 1);
      CmpTrans(b, f[i], f[j - 1], f[j], H);
    }
  }

  /** After the class loop, position p carries the bucket header of rotation p + H. */
  ghost predicate Classes(f: seq<int>, h: seq<bool>, e: seq<int>, H: nat) {
    && |e| == |f| <= |h| && H <= |f|
    && forall i :: 0 <= i < |f| ==> 0 <= f[i] < |f| && e[Unshift(|f|, f[i], H)] == Start(h, i)
  }

  /** So classes compare as the H characters after the first H. */
  lemma ClassOrder(b: seq<Byte>, f: seq<int>, h: seq<bool>, e: seq<int>, H: nat, x: nat, y: nat)
    requires Level(b, f, h, H) && Classes(f, h, e, H) && x < |b| && y < |b|
    ensures e[x] < e[y] <==> Cmp(b, Shift(|b|, x, H), Shift(|b|, y, H), H) < 0
    ensures e[x] == e[y] <==> Cmp(b, Shift(|b|, x, H), Shift(|b|, y, H), H) == 0
  {
    var i := PermHits(f, Shift(|b|, x, H));
    var j := PermHits(f, Shift(|b|, y, H));
    assert Unshift(|b|, f[i], H) == x && Unshift(|b|, f[j], H) == y;
    if i <= j {
      LevelPairs(b, f, h, H, i, j);
    } else {
      LevelPairs(b, f, h, H, j, i);
      CmpFlip(b, f[i], f[j], H);
    }
  }

  /** Within a bucket, the class decides the order of the first 2H characters. */
  lemma ClassDoubles(b: seq<Byte>, f: seq<int>, h: seq<bool>, e: seq<int>, H: nat, x: nat, y: nat)
    requires Level(b, f, h, H) && Classes(f, h, e, H) && x < |b| && y < |b|
    requires Cmp(b, x, y, H) == 0
    ensures e[x] <= e[y] ==> Cmp(b, x, y, 2 * H) <= 0
    ensures Cmp(b, x, y, 2 * H) == 0 <==> e[x] == e[y]
  {
    ClassOrder(b, f, h, e, H, x, y);
    CmpSplit(b, x, y, H, H);
  }

  /**
    In the middle of a pass: slots up to r are in order by 2H characters, those above are as
    they were, and no entry has left its bucket.
  */
  ghost predicate Mid(b: seq<Byte>, f0: seq<int>, h0: seq<bool>, f: seq<int>, h: seq<bool>, H: nat, r: int) {
    && Level(b, f0, h0, H) && 0 < H <= |b|
    && |f| == |f0| && |h| == |h0| && IsPerm(f) && -1 <= r < |f| && h0[r + 1]
    && (forall i :: 0 <= i < |f| ==> Cmp(b, f0[i], f[i], H) == 0)
    && (forall i :: r < i < |f| ==> f[i] == f0[i])
    && (forall i :: r < i < |h| ==> h[i] == h0[i]) && h[0]
    && (forall i :: 0 < i <= r ==> Cmp(b, f[i - 1], f[i], 2 * H) <= 0 && (h[i] <==> Cmp(b, f[i - 1], f[i], 2 * H) != 0))
  }

  lemma MidStart(b: seq<Byte>, f: seq<int>, h: seq<bool>, H: nat)
    requires Level(b, f, h, H) && 0 < H <= |b|
    ensures Mid(b, f, h, f, h, H, -1)
  {
    forall i | 0 <= i < |f| ensures Cmp(b, f[i], f[i], H) == 0 {
      CmpSelf(b, f[i], H);
    }
  }

  /** Across a bucket boundary the order by H characters is strict, hence also that by 2H. */
  lemma MidBoundary(b: seq<Byte>, f0: seq<int>, h0: seq<bool>, H: nat, i: int, x: nat, y: nat)
    requires Level(b, f0, h0, H) && 0 < i < |b| && h0[i] && x < |b| && y < |b|
    requires Cmp(b, f0[i - 1], x, H) == 0 && Cmp(b, f0[i], y, H) == 0
    ensures Cmp(b, x, y, 2 * H) < 0
  {
    var p, q := f0[i - 1], f0[i];
    CmpFlip(b, p, x, H);
    CmpTrans(b, x, p, q, H);
    CmpTrans(b, x, q, y, H);
    CmpDecided(b, x, y, H, 2 * H);
  }

  /** The bucket [l, r'] after fallbackQSort3 and the header scan. */
  ghost predicate BucketDone(f: seq<int>, h: seq<bool>, f': seq<int>, h': seq<bool>, e: seq<int>, l: int, r': int) {
    && 0 <= l < r' < |f| == |f'| && |h'| == |h| > |f|
    && Rearranged(f, f', l, r' + 1)
    && Keyed(f', |e|, 0, l, r' + 1) && Ordered(f', e, l, r' + 1)
    && (forall i :: 0 <= i < |h| && !(l < i <= r') ==> h'[i] == h[i])
    && (forall i :: l < i <= r' ==> (h'[i] <==> h[i] || e[f'[i]] != e[f'[i - 1]]))
  }

  /** All entries of a bucket agree in their first H characters. */
  lemma BucketEqual(b: seq<Byte>, f0: seq<int>, h0: seq<bool>, H: nat, l: nat, i: nat)
    requires Level(b, f0, h0, H) && l <= i < |b|
    requires forall x :: l < x <= i ==> !h0[x]
    ensures Cmp(b, f0[l], f0[i], H) == 0
    decreases i
  {
    if l == i {
      CmpSelf(b, f0[l], H);
    } else {
      BucketEqual(b, f0, h0, H, l, i - 1);
      CmpTrans(b, f0[l], f0[i - 1], f0[i], H);
    }
  }

  lemma MidBucketMember(b: seq<Byte>, f0: seq<int>, h0: seq<bool>, f: seq<int>, h: seq<bool>, f': seq<int>,
                        H: nat, r: int, l: int, r': int, i: int)
    requires Mid(b, f0, h0, f, h, H, r) && r < l <= i <= r' < |b|
    requires Rearranged(f, f', l, r' + 1)
    requires forall x :: l < x <= r' ==> !h0[x]
    ensures 0 <= f'[i] < |b| && Cmp(b, f0[l], f'[i], H) == 0 && Cmp(b, f0[i], f'[i], H) == 0
  {
    var k := RearrangedFrom(f, f', l, r' + 1, i);
    BucketEqual(b, f0, h0, H, l, k);
    BucketEqual(b, f0, h0, H, l, i);
    CmpFlip(b, f0[l], f0[i], H);
    CmpTrans(b, f0[i], f0[l], f0[k], H);
  }

  lemma MidBucketPair(b: seq<Byte>, f0: seq<int>, h0: seq<bool>, f: seq<int>, h: seq<bool>,
                      f': seq<int>, h': seq<bool>, e: seq<int>, H: nat, r: int, l: int, r': int, i: int)
    requires Mid(b, f0, h0, f, h, H, r) && Classes(f0, h0, e, H)
    requires r < l < i <= r' < |b| && BucketDone(f, h, f', h', e, l, r')
    requires forall x :: l < x <= r' ==> !h0[x]
    ensures 0 <= f'[i - 1] < |b| && 0 <= f'[i] < |b|
    ensures Cmp(b, f'[i - 1], f'[i], 2 * H) <= 0 && (h'[i] <==> Cmp(b, f'[i - 1], f'[i], 2 * H) != 0)
  {
    MidBucketMember(b, f0, h0, f, h, f', H, r, l, r', i - 1);
    MidBucketMember(b, f0, h0, f, h, f', H, r, l, r', i);
    CmpFlip(b, f0[l], f'[i - 1], H);
    CmpTrans(b, f'[i - 1], f0[l], f'[i], H);
    ClassDoubles(b, f0, h0, e, H, f'[i - 1], f'[i]);
    assert h[i] == h0[i];
  }

  /** Finding and finishing the next bucket [l, r'] that is not a singleton. */
  lemma MidStep(b: seq<Byte>, f0: seq<int>, h0: seq<bool>, f: seq<int>, h: seq<bool>,
                f': seq<int>, h': seq<bool>, e: seq<int>, H: nat, r: int, l: int, r': int)
    requires Mid(b, f0, h0, f, h, H, r) && Classes(f0, h0, e, H)
    requires r < l < r' < |b| && BucketDone(f, h, f', h', e, l, r')
    requires forall x :: r < x <= l ==> h0[x]
    requires (forall x :: l < x <= r' ==> !h0[x]) && h0[r' + 1]
    ensures Mid(b, f0, h0, f', h', H, r')
  {
    PermRearranged(f, f');
    forall i | 0 <= i < |f| ensures Cmp(b, f0[i], f'[i], H) == 0 {
      if l <= i <= r' {
        MidBucketMember(b, f0, h0, f, h, f', H, r, l, r', i);
      }
    }
    forall i | 0 < i <= r'
      ensures Cmp(b, f'[i - 1], f'[i], 2 * H) <= 0 && (h'[i] <==> Cmp(b, f'[i - 1], f'[i], 2 * H) != 0)
    {
      if l < i {
        MidBucketPair(b, f0, h0, f, h, f', h', e, H, r, l, r', i);
      } else if r < i {
        MidBoundary(b, f0, h0, H, i, f'[i - 1], f'[i]);
      }
    }
  }

  /** The rest of the block is singletons: the pass is over. */
  lemma MidEnd(b: seq<Byte>, f0: seq<int>, h0: seq<bool>, f: seq<int>, h: seq<bool>, H: nat, r: int)
    requires Mid(b, f0, h0, f, h, H, r)
    requires forall x :: r < x < |b| ==> h0[x]
    ensures Level(b, f, h, 2 * H)
  {
    forall i | 0 < i < |b|
      ensures Cmp(b, f[i - 1], f[i], 2 * H) <= 0 && (h[i] <==> Cmp(b, f[i - 1], f[i], 2 * H) != 0)
    {
      if r < i { MidBoundary(b, f0, h0, H, i, f[i - 1], f[i]); }
    }
  }

  /** Why the passes may stop: H exceeds the block, or every bucket is a singleton. */
  lemma LevelSorted(b: seq<Byte>, f: seq<int>, h: seq<bool>, H: nat)
    requires Level(b, f, h, H)
    requires H > |b| || forall i :: 0 < i < |b| ==> h[i]
    ensures SortedRotations(b, f)
  {
    forall i | 0 < i < |f| ensures Cmp(b, f[i - 1], f[i], |b|) <= 0 {
      if H >= |b| {
        CmpLong(b, f[i - 1], f[i], H);
      } else {
        CmpDecided(b, f[i - 1], f[i], H, |b|);
      }
    }
  }

  // ----- the initial radix sort -----

  /** The byte counts, and their running sums: ftab[c] is where the bucket after `c` starts. */
  method CountBytes(eclass8: array<Byte>, nblock: int) returns (ftab: array<int>, ftabCopy: array<int>)
    requires 0 < nblock == eclass8.Length
    ensures fresh(ftab) && fresh(ftabCopy) && ftab != ftabCopy && ftab.Length == 257 && ftabCopy.Length == 256
    ensures forall c :: 0 <= c < 257 ==> ftab[c] == Less(eclass8[..], c + 1)
    ensures forall c :: 0 <= c < 256 ==> ftabCopy[c] == Count<int>(eclass8[..], c)
  {
    ghost var b: seq<int> := eclass8[..];
    ftab, ftabCopy := new int[257](i => 0), new int[256];
    for i := 0 to nblock
      invariant forall c :: 0 <= c < 257 ==> ftab[c] == Count(b[..i], c)
    {
      forall c | 0 <= c < 257 ensures Count(b[..i + 1], c) == Count(b[..i], c) + if b[i] == c then 1 else 0 {
        CountStep(b, i, c);
      }
      ftab[eclass8[i]] := ftab[eclass8[i]] + 1;
    }
    assert b[..nblock] == b;
    for i := 0 to 256
      invariant forall c :: 0 <= c < i ==> ftabCopy[c] == Count(b, c)
      invariant forall c :: 0 <= c < 257 ==> ftab[c] == Count(b, c)
    {
      ftabCopy[i] := ftab[i];
    }
    LessAll(b, 0);
    LessNext(b, 0);
    for i := 1 to 257
      invariant forall c :: 0 <= c < i ==> ftab[c] == Less(b, c + 1)
      invariant forall c :: i <= c < 257 ==> ftab[c] == Count(b, c)
      invariant forall c :: 0 <= c < 256 ==> ftabCopy[c] == Count(b, c)
    {
      LessNext(b, i);
      ftab[i] := ftab[i] + ftab[i - 1];
    }
  }

  /** The initial fmap: rotations by their first byte. Leaves in ftab[c] the start of bucket c. */
  method PlaceBytes(eclass8: array<Byte>, fmap: array<int>, ftab: array<int>, nblock: int)
    requires 0 < nblock == eclass8.Length == fmap.Length && ftab != fmap && ftab.Length == 257
    requires forall c :: 0 <= c < 257 ==> ftab[c] == Less(eclass8[..], c + 1)
    modifies fmap, ftab
    ensures eclass8[..] == old(eclass8[..])
    ensures Bucketed(eclass8[..], fmap[..])
    ensures forall c :: 0 <= c < 256 ==> ftab[c] == Less(eclass8[..], c)
  {
    hide Bucketed, Less;
    ghost var b: seq<int> := eclass8[..];
    ghost var slot: seq<int> := [];
    for i := 0 to nblock
      invariant eclass8[..] == b
      invariant PlacedDown(b, 256, ftab[..], fmap[..], slot, i)
    {
      ghost var t, f := ftab[..], fmap[..];
      var j := eclass8[i];
      var k := ftab[j] - 1;
      PlaceDown(b, 256, t, f, slot, i, j, k);
      ftab[j] := k;
      fmap[k] := i;
      assert ftab[..] == t[j := k] && fmap[..] == f[k := i];
      slot := slot + [k];
    }
    PlacedDownAll(b, 256, ftab[..], fmap[..], slot);
  }

  // ----- the header bits -----

  ghost predicate Hit(ftab: seq<int>, k: int, x: int) {
    exists c :: 0 <= c < k && c < |ftab| && ftab[c] == x
  }

  lemma HitNext(ftab: seq<int>, k: int, x: int)
    requires 0 <= k < |ftab|
    ensures Hit(ftab, k + 1, x) <==> Hit(ftab, k, x) || ftab[k] == x
  {
    if Hit(ftab, k + 1, x) && ftab[k] != x {
      var c :| 0 <= c < k + 1 && ftab[c] == x;
      assert 0 <= c < k;
    }
  }

  lemma HitPut(h: seq<bool>, g: seq<bool>, ftab: seq<int>, i: int, n: int)
    requires 0 <= i < |ftab| && 0 <= ftab[i] <= n < |h| && g == h[ftab[i] := true]
    requires forall x :: 0 <= x < n ==> h[x] == Hit(ftab, i, x)
    ensures forall x :: 0 <= x < n ==> g[x] == Hit(ftab, i + 1, x)
  {
    forall x | 0 <= x < n ensures g[x] == Hit(ftab, i + 1, x) {
      HitNext(ftab, i, x);
    }
  }

  /** Clear the bits, set one at the start of every byte's bucket, then the 32 sentinel pairs. */
  method InitHeaders(bhtab: array<Word>, ftab: array<int>, nblock: int)
    requires 0 < nblock && nblock / 32 + 3 <= bhtab.Length && ftab.Length == 257
    requires forall c :: 0 <= c < 256 ==> 0 <= ftab[c] <= nblock
    modifies bhtab
    ensures forall x :: 0 <= x < nblock ==> (Flat(bhtab[..])[x] <==> Hit(ftab[..], 256, x))
    ensures Flat(bhtab[..])[nblock] && !Flat(bhtab[..])[nblock + 1]
  {
    hide Hit;
    var nBhtab := 2 + nblock / 32;
    for i := 0 to nBhtab
      invariant forall k :: 0 <= k < i ==> bhtab[k] == ZERO_WORD
    {
      bhtab[i] := ZERO_WORD;
    }
    ghost var t := ftab[..];
    ghost var h := Flat(bhtab[..]);
    forall x | 0 <= x < nblock ensures h[x] == Hit(t, 0, x) {
      assert !Hit(t, 0, x) by { HitNone(t, x); }
      assert h[x] == bhtab[x / 32][x % 32];
    }
    for i := 0 to 256
      invariant ftab[..] == t && Flat(bhtab[..]) == h && |h| == 32 * bhtab.Length
      invariant forall x :: 0 <= x < nblock ==> h[x] == Hit(t, i, x)
    {
      HitPut(h, h[t[i] := true], t, i, nblock);
      Put(bhtab, ftab[i], true);
      h := h[t[i] := true];
    }
    for i := 0 to 32
      invariant Flat(bhtab[..]) == h && |h| == 32 * bhtab.Length
      invariant forall x :: 0 <= x < nblock ==> h[x] == Hit(t, 256, x)
      invariant i > 0 ==> h[nblock] && !h[nblock + 1]
    {
      Put(bhtab, nblock + 2 * i, true);
      h := h[nblock + 2 * i := true];
      Put(bhtab, nblock + 2 * i + 1, false);
      h := h[nblock + 2 * i + 1 := false];
    }
  }

  lemma HitNone(ftab: seq<int>, x: int)
    ensures !Hit(ftab, 0, x)
  {
  }

  lemma InitialLevel(b: seq<Byte>, f: seq<int>, h: seq<bool>, ftab: seq<int>)
    requires |b| > 0 && Bucketed(b, f) && |h| > |b| + 1 && |ftab| >= 256
    requires forall c :: 0 <= c < 256 ==> ftab[c] == Less(b, c)
    requires forall x :: 0 <= x < |b| ==> (h[x] <==> Hit(ftab, 256, x))
    requires h[|b|] && !h[|b| + 1]
    ensures Level(b, f, h, 1)
  {
    LessAll(b, 0);
    assert ftab[0] == 0;
    forall i | 0 < i < |b|
      ensures Cmp(b, f[i - 1], f[i], 1) <= 0 && (h[i] <==> Cmp(b, f[i - 1], f[i], 1) != 0)
    {
      HeaderAtStart(b, f, ftab, i);
      assert Cmp(b, f[i - 1], f[i], 1) == if b[f[i - 1]] < b[f[i]] then -1 else 0;
    }
  }

  lemma HeaderAtStart(b: seq<Byte>, f: seq<int>, ftab: seq<int>, i: int)
    requires 0 < i < |b| && Bucketed(b, f) && |f| == |b| && |ftab| >= 256
    requires 0 <= f[i - 1] < |b| && 0 <= f[i] < |b|
    requires forall c :: 0 <= c < 256 ==> ftab[c] == Less(b, c)
    ensures b[f[i - 1]] <= b[f[i]]
    ensures Hit(ftab, 256, i) <==> b[f[i - 1]] < b[f[i]]
  {
    hide Less, Bucketed, IsPerm;
    BucketedSorted(b, f, i - 1, i);
    var c := b[f[i]];
    if b[f[i - 1]] < c {
      BucketOf(b, f, i - 1, c);
      BucketOf(b, f, i, c);
      assert ftab[c] == i;
    } else if Hit(ftab, 256, i) {
      var d :| 0 <= d < 256 && ftab[d] == i;
      BucketOf(b, f, i - 1, d);
      BucketOf(b, f, i, d);
    }
  }

  // ----- one pass -----

  ghost predicate ClassesUpTo(f: seq<int>, h: seq<bool>, e: seq<int>, H: nat, i: int) {
    && |e| == |f| <= |h| && 0 <= i <= |f| && H <= |f|
    && forall k :: 0 <= k < i ==> 0 <= f[k] < |f| && e[Unshift(|f|, f[k], H)] == Start(h, k)
  }

  lemma ClassesStep(f: seq<int>, h: seq<bool>, e: seq<int>, H: nat, i: int, k: int)
    requires ClassesUpTo(f, h, e, H, i) && i < |f| && IsPerm(f) && k == Unshift(|f|, f[i], H)
    ensures ClassesUpTo(f, h, e[k := Start(h, i)], H, i + 1)
  {
    forall x | 0 <= x < i ensures Unshift(|f|, f[x], H) != k {
      assert f[x] != f[i];
    }
  }

  /** The loop that records in eclass the bucket of the rotation H further on. */
  method AssignClasses(fmap: array<int>, eclass: array<int>, bhtab: array<Word>, nblock: int, H: int)
    requires fmap != eclass && 0 < H <= nblock == fmap.Length == eclass.Length && nblock < 32 * bhtab.Length
    requires IsPerm(fmap[..])
    modifies eclass
    ensures Classes(fmap[..], Flat(bhtab[..]), eclass[..], H)
  {
    hide ClassesUpTo, IsPerm, Flat;
    ghost var f, h := fmap[..], Flat(bhtab[..]);
    IsPermBounds(f);
    ClassesNone(f, h, eclass[..], H);
    var j := 0;
    for i := 0 to nblock
      invariant i > 0 ==> j == Start(h, i - 1)
      invariant i == 0 ==> j == 0
      invariant ClassesUpTo(f, h, eclass[..], H, i)
    {
      ghost var e := eclass[..];
      var bit := Get(bhtab, i);
      if bit { j := i; }
      var k := fmap[i] - H;
      if k < 0 { k := k + nblock; }
      ClassesStep(f, h, e, H, i, k);
      eclass[k] := j;
      assert eclass[..] == e[k := Start(h, i)];
    }
    ClassesAll(f, h, eclass[..], H);
  }

  lemma IsPermBounds(f: seq<int>)
    requires IsPerm(f)
    ensures forall i :: 0 <= i < |f| ==> 0 <= f[i] < |f|
  {
  }

  lemma ClassesNone(f: seq<int>, h: seq<bool>, e: seq<int>, H: nat)
    requires |e| == |f| <= |h| && H <= |f|
    ensures ClassesUpTo(f, h, e, H, 0)
  {
  }

  lemma ClassesAll(f: seq<int>, h: seq<bool>, e: seq<int>, H: nat)
    requires ClassesUpTo(f, h, e, H, |f|)
    ensures Classes(f, h, e, H)
  {
  }

  /** The header bits after scanning positions l, ..., i - 1 of a sorted bucket. */
  ghost predicate Scanned(h0: seq<bool>, h: seq<bool>, f: seq<int>, e: seq<int>, l: int, i: int)
    requires 0 <= l && i <= |f| && forall k :: l <= k < i ==> 0 <= f[k] < |e|
  {
    && |h| == |h0|
    && (forall k :: 0 <= k < |h| && !(l < k < i) ==> h[k] == h0[k])
    && (forall k :: l < k < i && k < |h| ==> (h[k] <==> h0[k] || e[f[k]] != e[f[k - 1]]))
  }

  method ScanHeaders(fmap: array<int>, eclass: array<int>, bhtab: array<Word>, l: int, r: int)
    requires 0 <= l <= r < fmap.Length && fmap != eclass && r < 32 * bhtab.Length
    requires forall k :: l <= k <= r ==> 0 <= fmap[k] < eclass.Length
    requires Flat(bhtab[..])[l]
    modifies bhtab
    ensures Scanned(old(Flat(bhtab[..])), Flat(bhtab[..]), fmap[..], eclass[..], l, r + 1)
  {
    ghost var h0, f, e := Flat(bhtab[..]), fmap[..], eclass[..];
    hide Flat;
    var cc := -1;
    for i := l to r + 1
      invariant Scanned(h0, Flat(bhtab[..]), f, e, l, i)
      invariant i == l ==> cc == -1
      invariant i > l ==> cc == e[f[i - 1]]
    {
      var cc1 := eclass[fmap[i]];
      if cc != cc1 {
        Put(bhtab, i, true);
        cc := cc1;
      }
    }
  }

  lemma MidFacts(b: seq<Byte>, f0: seq<int>, h0: seq<bool>, f: seq<int>, h: seq<bool>, H: nat, r: int)
    requires Mid(b, f0, h0, f, h, H, r)
    ensures |f| == |f0| == |b| && |h| == |h0| > |b| + 1 && -1 <= r < |b|
    ensures h[r + 1] && h[|b|] && !h[|b| + 1] && Keyed(f, |b|, 0, 0, |b|)
    ensures forall i :: r < i < |h| ==> h[i] == h0[i]
    ensures IsPerm(f) && forall i :: 0 <= i < |f| ==> 0 <= f[i] < |f|
  {
  }

  lemma MidColumn(b: seq<Byte>, f0: seq<int>, h0: seq<bool>, f: seq<int>, h: seq<bool>, H: nat, r: int)
    requires Mid(b, f0, h0, f, h, H, r)
    ensures forall i :: 0 <= i < |f| ==> 0 <= f0[i] < |b| && 0 <= f[i] < |b| && b[f[i]] == b[f0[i]]
  {
    forall i | 0 <= i < |f| ensures b[f[i]] == b[f0[i]] {
      assert Cmp(b, f0[i], f[i], H) == 0;
    }
  }

  /** What the bucket's own sort and scan establish. */
  lemma BucketFinished(f: seq<int>, h: seq<bool>, f': seq<int>, h': seq<bool>, e: seq<int>, l: int, r': int)
    requires 0 <= l < r' < |f| < |h|
    requires Rearranged(f, f', l, r' + 1) && Keyed(f', |e|, 0, l, r' + 1) && Ordered(f', e, l, r' + 1)
    requires Scanned(h, h', f', e, l, r' + 1)
    ensures BucketDone(f, h, f', h', e, l, r')
  {
  }

  /** The sort and the scan of the bucket at l, ..., r', the next one that is not a singleton. */
  method RefineBucket(fmap: array<int>, eclass: array<int>, bhtab: array<Word>, nblock: int, l: int, r': int,
                      ghost b: seq<Byte>, ghost f0: seq<int>, ghost h0: seq<bool>, ghost H: nat, ghost r: int)
    requires fmap != eclass && 0 < H <= nblock == |b| == fmap.Length == eclass.Length && nblock <= 0x7fff_fff0
    requires Mid(b, f0, h0, fmap[..], Flat(bhtab[..]), H, r) && Classes(f0, h0, eclass[..], H)
    requires r < l < r' < nblock && |h0| > nblock + 1 && forall x :: r < x <= l ==> h0[x]
    requires (forall x :: l < x <= r' ==> !h0[x]) && h0[r' + 1]
    modifies fmap, bhtab
    ensures Mid(b, f0, h0, fmap[..], Flat(bhtab[..]), H, r')
  {
    hide Level, Classes, Mid, Flat, IsPerm, Keyed, Rearranged, Ordered, Scanned, BucketDone;
    ghost var e, f, h := eclass[..], fmap[..], Flat(bhtab[..]);
    MidFacts(b, f0, h0, f, h, H, r);
    KeyedNarrow(f, nblock, 0, nblock, l, r' + 1);
    QSort3(fmap, eclass, l, r');
    ghost var f' := fmap[..];
    KeyedFacts(f', nblock, l, r' + 1);
    ScanHeaders(fmap, eclass, bhtab, l, r');
    BucketFinished(f, h, f', Flat(bhtab[..]), e, l, r');
    MidStep(b, f0, h0, f, h, f', Flat(bhtab[..]), e, H, r, l, r');
  }

  /**
    One pass: every bucket that is not a singleton is sorted by the classes, and its header bits
    are refined. The result counts the entries of such buckets.
  */
  method Pass(fmap: array<int>, eclass: array<int>, bhtab: array<Word>, nblock: int, ghost b: seq<Byte>, ghost H: nat)
    returns (nNotDone: int)
    requires fmap != eclass && 0 < H <= nblock == |b| == fmap.Length == eclass.Length && nblock <= 0x7fff_fff0
    requires Level(b, fmap[..], Flat(bhtab[..]), H) && Classes(fmap[..], Flat(bhtab[..]), eclass[..], H)
    modifies fmap, bhtab
    ensures Level(b, fmap[..], Flat(bhtab[..]), 2 * H)
    ensures nNotDone == 0 ==> forall i :: 0 < i < nblock ==> Flat(bhtab[..])[i]
    ensures forall i :: 0 <= i < nblock ==>
              0 <= old(fmap[i]) < nblock && 0 <= fmap[i] < nblock && b[fmap[i]] == b[old(fmap[i])]
  {
    hide Level, Classes, Mid, Flat, IsPerm, Keyed, Rearranged, Ordered, Scanned, BucketDone;
    ghost var f0, h0, e := fmap[..], Flat(bhtab[..]), eclass[..];
    MidStart(b, f0, h0, H);
    nNotDone := 0;
    var r := -1;
    while true
      invariant eclass[..] == e && Mid(b, f0, h0, fmap[..], Flat(bhtab[..]), H, r)
      invariant -1 <= r < nblock && nNotDone >= 0 && (nNotDone == 0 ==> r == -1)
      decreases nblock - r
    {
      ghost var f, h := fmap[..], Flat(bhtab[..]);
      MidFacts(b, f0, h0, f, h, H, r);
      var k := Skip(bhtab, r + 1, true, nblock + 1);
      var l := k - 1;
      if l >= nblock { break; }
      k := Skip(bhtab, k, false, nblock);
      var r' := k - 1;
      assert l < r' < nblock;
      nNotDone := nNotDone + (r' - l + 1);
      RefineBucket(fmap, eclass, bhtab, nblock, l, r', b, f0, h0, H, r);
      r := r';
    }
    MidFacts(b, f0, h0, fmap[..], Flat(bhtab[..]), H, r);
    MidColumn(b, f0, h0, fmap[..], Flat(bhtab[..]), H, r);
    MidEnd(b, f0, h0, fmap[..], Flat(bhtab[..]), H, r);
  }

  lemma KeyedFacts(f: seq<int>, size: int, lo: int, hi: int)
    requires Keyed(f, size, 0, lo, hi)
    ensures forall x :: lo <= x < hi && 0 <= x < |f| ==> 0 <= f[x] < size
  {
  }

  // ----- the end: the block is written back from the counts and the order -----

  /** What is left of bucket c when the first i slots have been written back. */
  ghost function Remaining(b: seq<int>, c: int, i: int): int {
    Max(0, Less(b, c + 1) - Max(i, Less(b, c)))
  }

  lemma RemainingAt(b: seq<int>, f: seq<int>, i: int, c: int)
    requires Bucketed(b, f) && 0 <= i < |f|
    ensures c < b[f[i]] ==> Remaining(b, c, i) == 0
    ensures c == b[f[i]] ==> Remaining(b, c, i) > 0
    ensures Remaining(b, c, i + 1) == Remaining(b, c, i) - if c == b[f[i]] then 1 else 0
  {
    BucketOf(b, f, i, c);
    BucketOf(b, f, i, c + 1);
    LessMonotone(b, c, c + 1);
  }

  /** Overwriting eclass destroyed the block, which shares its memory. */
  method Clobber(eclass8: array<Byte>)
    modifies eclass8
  {
  }

  method Reconstruct(eclass8: array<Byte>, fmap: array<int>, ftabCopy: array<int>, nblock: int, ghost b: seq<Byte>)
    requires nblock == |b| == eclass8.Length == fmap.Length && ftabCopy.Length == 256 && ftabCopy != fmap
    requires Bucketed(b, fmap[..])
    requires forall c :: 0 <= c < 256 ==> ftabCopy[c] == Count<int>(b, c)
    modifies eclass8, ftabCopy
    ensures eclass8[..] == b
  {
    hide Remaining, Bucketed, Less, IsPerm;
    ghost var f, d: seq<int> := fmap[..], b;
    BucketedPerm(d, f);
    var j := 0;
    forall c | 0 <= c < 256 ensures Remaining(d, c, 0) == Count(d, c) {
      RemainingStart(d, c);
    }
    for i := 0 to nblock
      invariant fmap[..] == f && 0 <= j < 256
      invariant forall c :: 0 <= c < 256 ==> ftabCopy[c] == Remaining(d, c, i)
      invariant i < nblock ==> j <= d[f[i]]
      invariant forall k :: 0 <= k < i ==> eclass8[f[k]] == d[f[k]]
    {
      forall c | 0 <= c < 256
        ensures c < d[f[i]] ==> Remaining(d, c, i) == 0
        ensures c == d[f[i]] ==> Remaining(d, c, i) > 0
        ensures Remaining(d, c, i + 1) == Remaining(d, c, i) - if c == d[f[i]] then 1 else 0
      {
        RemainingAt(d, f, i, c);
      }
      while ftabCopy[j] == 0
        invariant 0 <= j <= d[f[i]]
        decreases 256 - j
      {
        j := j + 1;
      }
      assert j == d[f[i]];
      ftabCopy[j] := ftabCopy[j] - 1;
      eclass8[fmap[i]] := j;
      if i + 1 < nblock { BucketedSorted(d, f, i, i + 1); }
    }
    forall p | 0 <= p < nblock ensures eclass8[p] == b[p] {
      var k := PermHits(f, p);
      assert eclass8[f[k]] == d[f[k]];
    }
  }

  lemma RemainingStart(b: seq<int>, c: int)
    ensures Remaining(b, c, 0) == Count(b, c)
  {
    LessNext(b, c);
  }

  lemma BucketedPerm(b: seq<int>, f: seq<int>)
    requires Bucketed(b, f)
    ensures IsPerm(f) && forall i :: 0 <= i < |f| ==> 0 <= f[i] < |f|
  {
  }

  lemma BucketedSameColumn(b: seq<int>, f: seq<int>, g: seq<int>)
    requires Bucketed(b, f) && IsPerm(g) && |g| == |f|
    requires forall i :: 0 <= i < |f| ==> b[g[i]] == b[f[i]]
    ensures Bucketed(b, g)
  {
    forall s | 0 <= s < |g| ensures Less(b, b[g[s]]) <= s < Less(b, b[g[s]] + 1) {
      assert b[g[s]] == b[f[s]];
    }
  }

  /** Between the passes: the order and bits at level H, and the column of first bytes untouched. */
  ghost predicate Between(b: seq<Byte>, f: seq<int>, h: seq<bool>, H: nat) {
    Level(b, f, h, H) && Bucketed(b, f)
  }

  lemma BetweenPass(b: seq<Byte>, f: seq<int>, h: seq<bool>, H: nat, f': seq<int>, h': seq<bool>, H': nat)
    requires Between(b, f, h, H) && Level(b, f', h', H')
    requires forall i :: 0 <= i < |b| ==> 0 <= f[i] < |b| && 0 <= f'[i] < |b| && b[f'[i]] == b[f[i]]
    ensures Between(b, f', h', H')
  {
    BucketedSameColumn(b, f, f');
  }

  lemma BetweenFacts(b: seq<Byte>, f: seq<int>, h: seq<bool>, H: nat)
    requires Between(b, f, h, H)
    ensures Level(b, f, h, H) && Bucketed(b, f) && IsPerm(f)
  {
  }

  method Sort(fmap: array<int>, eclass: array<int>, eclass8: array<Byte>, bhtab: array<Word>, nblock: int)
    requires fmap != eclass && 0 < nblock == fmap.Length == eclass.Length == eclass8.Length
    requires nblock <= 0x7fff_fff0 && nblock / 32 + 3 <= bhtab.Length
    modifies fmap, eclass, eclass8, bhtab
    ensures eclass8[..] == old(eclass8[..])
    ensures SortedRotations(eclass8[..], fmap[..])
  {
    hide Level, Classes, Flat, IsPerm, Bucketed, Less, Hit, Between, SortedRotations;
    ghost var b := eclass8[..];
    var ftab, ftabCopy := CountBytes(eclass8, nblock);
    PlaceBytes(eclass8, fmap, ftab, nblock);
    InitHeaders(bhtab, ftab, nblock);
    InitialLevel(b, fmap[..], Flat(bhtab[..]), ftab[..]);
    BetweenStart(b, fmap[..], Flat(bhtab[..]));
    Clobber(eclass8);
    var H := 1;
    while true
      invariant 0 < H <= nblock
      invariant Between(b, fmap[..], Flat(bhtab[..]), H)
      invariant forall c :: 0 <= c < 256 ==> ftabCopy[c] == Count<int>(b, c)
      decreases nblock - H
    {
      ghost var f, h := fmap[..], Flat(bhtab[..]);
      BetweenFacts(b, f, h, H);
      AssignClasses(fmap, eclass, bhtab, nblock, H);
      var nNotDone := Pass(fmap, eclass, bhtab, nblock, b, H);
      BetweenPass(b, f, h, H, fmap[..], Flat(bhtab[..]), 2 * H);
      H := H * 2;
      if H > nblock || nNotDone == 0 {
        LevelSorted(b, fmap[..], Flat(bhtab[..]), H);
        break;
      }
    }
    BetweenFacts(b, fmap[..], Flat(bhtab[..]), H);
    Reconstruct(eclass8, fmap, ftabCopy, nblock, b);
  }

  lemma BetweenStart(b: seq<Byte>, f: seq<int>, h: seq<bool>)
    requires Level(b, f, h, 1) && Bucketed(b, f)
    ensures Between(b, f, h, 1)
  {
  }
}
