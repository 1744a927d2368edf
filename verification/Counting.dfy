/**
  Counting keys: the arithmetic behind every frequency table of the library (ftab in
  blocksort.c, cftab in decompress.c).
*/
module Counting {
  import opened Common

  /** How many keys are below `c`: where the keys equal to `c` start in sorted order. */
  function Less(s: seq<int>, c: int): (r: nat)
    ensures r <= |s|
  {
    if s == [] then 0 else Less(s[..|s| - 1], c) + if s[|s| - 1] < c then 1 else 0
  }

  lemma {:induction false} LessNext(s: seq<int>, c: int)
    ensures Less(s, c + 1) == Less(s, c) + Count(s, c)
  {
    if s != [] { LessNext(s[..|s| - 1], c); }
  }

  lemma {:induction false} LessMonotone(s: seq<int>, c: int, d: int)
    requires c <= d
    ensures Less(s, c) <= Less(s, d)
  {
    if s != [] { LessMonotone(s[..|s| - 1], c, d); }
  }

  lemma {:induction false} LessAll(s: seq<int>, c: int)
    ensures (forall i :: 0 <= i < |s| ==> s[i] < c) ==> Less(s, c) == |s|
    ensures (forall i :: 0 <= i < |s| ==> s[i] >= c) ==> Less(s, c) == 0
  {
    if s != [] {
      var t := s[..|s| - 1];
      LessAll(t, c);
      if forall i :: 0 <= i < |s| ==> s[i] < c { assert forall i :: 0 <= i < |t| ==> t[i] == s[i]; }
      if forall i :: 0 <= i < |s| ==> s[i] >= c { assert forall i :: 0 <= i < |t| ==> t[i] == s[i]; }
    }
  }

  lemma CountStep(s: seq<int>, i: int, c: int)
    requires 0 <= i < |s|
    ensures Count(s[..i + 1], c) == Count(s[..i], c) + if s[i] == c then 1 else 0
  {
    assert s[..i + 1][..i] == s[..i];
  }

  lemma {:induction false} CountAtMost(s: seq<int>, c: int)
    ensures Count(s, c) <= |s|
  {
    if s != [] { CountAtMost(s[..|s| - 1], c); }
  }

  lemma CountPrefix(s: seq<int>, i: int, c: int)
    requires 0 <= i <= |s|
    ensures Count(s[..i], c) <= Count(s, c)
    ensures i < |s| && s[i] == c ==> Count(s[..i], c) < Count(s, c)
  {
    assert s == s[..i] + s[i..];
    CountConcat(s[..i], s[i..], c);
    if i < |s| && s[i] == c {
      assert s[i..][0] == c;
      CountIn(s[i..], c);
    }
  }

  /** `p` lists the items by key: the items with key `c` fill the slots from Less(c) to Less(c + 1). */
  ghost predicate Bucketed(key: seq<int>, p: seq<int>) {
    && |p| == |key| && IsPerm(p)
    && forall s :: 0 <= s < |p| ==> Less(key, key[p[s]]) <= s < Less(key, key[p[s]] + 1)
  }

  lemma BucketedSorted(key: seq<int>, p: seq<int>, s: int, t: int)
    requires Bucketed(key, p) && 0 <= s < t < |p|
    ensures key[p[s]] <= key[p[t]]
  {
    if key[p[t]] < key[p[s]] { LessMonotone(key, key[p[t]] + 1, key[p[s]]); }
  }

  /** A slot holds an item with key `c` exactly when it is in the range of `c`. */
  lemma BucketOf(key: seq<int>, p: seq<int>, s: int, c: int)
    requires Bucketed(key, p) && 0 <= s < |p|
    ensures key[p[s]] == c <==> Less(key, c) <= s < Less(key, c + 1)
    ensures key[p[s]] < c <==> s < Less(key, c)
  {
    var k := key[p[s]];
    if k < c { LessMonotone(key, k + 1, c); }
    if k > c { LessMonotone(key, c + 1, k); }
    LessMonotone(key, c, c + 1);
    if k >= c { LessMonotone(key, c, k); }
  }

  /** slot[i] is where `p` holds i. */
  ghost predicate Places(p: seq<int>, slot: seq<int>) {
    && |p| == |slot|
    && forall i :: 0 <= i < |slot| ==> 0 <= slot[i] < |p| && p[slot[i]] == i
  }

  lemma PlacesPerm(p: seq<int>, slot: seq<int>)
    requires Places(p, slot)
    ensures IsPerm(slot) && Places(slot, p)
  {
    forall i, j | 0 <= i < j < |slot| ensures slot[i] != slot[j] {
      assert p[slot[i]] == i && p[slot[j]] == j;
    }
    forall s | 0 <= s < |p| ensures 0 <= p[s] < |slot| && slot[p[s]] == s {
      var i := PermHits(slot, s);
      assert p[slot[i]] == i;
    }
  }

  /** If every item was given a slot of its own in its key's range, the slots list the items by key. */
  lemma SlotsBucketed(key: seq<int>, p: seq<int>, slot: seq<int>)
    requires |p| == |key| && Places(p, slot)
    requires forall i :: 0 <= i < |slot| ==> Less(key, key[i]) <= slot[i] < Less(key, key[i] + 1)
    ensures Bucketed(key, p) && IsPerm(slot)
  {
    PlacesPerm(p, slot);
    PlacesPerm(slot, p);
    forall s | 0 <= s < |p| ensures Less(key, key[p[s]]) <= s < Less(key, key[p[s]] + 1) {
      assert slot[p[s]] == s;
    }
  }

  /**
    Items 0, ..., i - 1 have been placed, each at the top of what was left of its key's range;
    slot[k] is where item k went.
  */
  ghost predicate PlacedDown(key: seq<int>, size: int, ftab: seq<int>, p: seq<int>, slot: seq<int>, i: int) {
    && 0 <= i == |slot| <= |key| == |p| && |ftab| >= size
    && (forall k :: 0 <= k < |key| ==> 0 <= key[k] < size)
    && (forall c :: 0 <= c < size ==> ftab[c] == Less(key, c + 1) - Count(key[..i], c))
    && (forall k :: 0 <= k < i ==> 0 <= slot[k] < |p| && p[slot[k]] == k)
    && (forall k :: 0 <= k < i ==> ftab[key[k]] <= slot[k] < Less(key, key[k] + 1))
  }

  /** The free slot `k` lies in the range of its key and is not taken. */
  lemma SlotDown(key: seq<int>, size: int, ftab: seq<int>, p: seq<int>, slot: seq<int>, i: int, c: int, k: int)
    requires PlacedDown(key, size, ftab, p, slot, i) && i < |key|
    requires c == key[i] && k == ftab[c] - 1
    ensures Less(key, c) <= k < Less(key, c + 1)
    ensures forall x :: 0 <= x < i ==> slot[x] != k
  {
    LessNext(key, c);
    CountPrefix(key, i, c);
    forall x | 0 <= x < i ensures slot[x] != k {
      var d := key[x];
      LessNext(key, d);
      CountPrefix(key, i, d);
      if d < c { LessMonotone(key, d + 1, c); }
      if d > c { LessMonotone(key, c + 1, d); }
    }
  }

  lemma PlaceDown(key: seq<int>, size: int, ftab: seq<int>, p: seq<int>, slot: seq<int>, i: int, c: int, k: int)
    requires PlacedDown(key, size, ftab, p, slot, i) && i < |key|
    requires c == key[i] && k == ftab[c] - 1
    ensures 0 <= k < |p| && PlacedDown(key, size, ftab[c := k], p[k := i], slot + [k], i + 1)
  {
    SlotDown(key, size, ftab, p, slot, i, c, k);
    var ftab', p', slot' := ftab[c := k], p[k := i], slot + [k];
    forall d | 0 <= d < size ensures ftab'[d] == Less(key, d + 1) - Count(key[..i + 1], d) {
      CountStep(key, i, d);
    }
    forall x | 0 <= x < i + 1 ensures 0 <= slot'[x] < |p'| && p'[slot'[x]] == x {
      if x < i { assert slot'[x] == slot[x]; }
    }
    forall x | 0 <= x < i + 1 ensures ftab'[key[x]] <= slot'[x] < Less(key, key[x] + 1) {
      if x < i { assert slot'[x] == slot[x]; }
    }
  }

  lemma PlacedDownAll(key: seq<int>, size: int, ftab: seq<int>, p: seq<int>, slot: seq<int>)
    requires PlacedDown(key, size, ftab, p, slot, |key|)
    ensures Bucketed(key, p)
    ensures forall c :: 0 <= c < size ==> ftab[c] == Less(key, c)
  {
    assert key[..|key|] == key;
    forall c | 0 <= c < size ensures ftab[c] == Less(key, c) {
      LessNext(key, c);
    }
    SlotsBucketed(key, p, slot);
  }

  // ----- stable counting sort -----

  /** The slot of item i when items with equal keys keep their order. */
  function Slot(key: seq<int>, i: nat): nat
    requires i < |key|
  {
    Less(key, key[i]) + Count(key[..i], key[i])
  }

  /** `p` lists the items by key, items with equal keys in their original order. */
  ghost predicate Stable(key: seq<int>, p: seq<int>) {
    && Bucketed(key, p)
    && forall s, t :: 0 <= s < t < |p| && key[p[s]] == key[p[t]] ==> p[s] < p[t]
  }

  lemma SlotRange(key: seq<int>, i: nat)
    requires i < |key|
    ensures Less(key, key[i]) <= Slot(key, i) < Less(key, key[i] + 1) <= |key|
  {
    LessNext(key, key[i]);
    CountPrefix(key, i, key[i]);
  }

  lemma SlotIncreases(key: seq<int>, i: nat, j: nat)
    requires i < j < |key| && key[i] == key[j]
    ensures Slot(key, i) < Slot(key, j)
  {
    var c := key[i];
    assert key[..j][..i] == key[..i];
    CountPrefix(key[..j], i, c);
  }

  lemma SlotDistinct(key: seq<int>, i: nat, j: nat)
    requires i < |key| && j < |key| && Slot(key, i) == Slot(key, j)
    ensures i == j
  {
    SlotRange(key, i);
    SlotRange(key, j);
    if key[i] < key[j] { LessMonotone(key, key[i] + 1, key[j]); }
    if key[j] < key[i] { LessMonotone(key, key[j] + 1, key[i]); }
    if i < j { SlotIncreases(key, i, j); }
    if j < i { SlotIncreases(key, j, i); }
  }

  /** Items 0, ..., i - 1 are in their slots and the counters point behind them. */
  ghost predicate PlacedUp(key: seq<int>, size: int, cftab: seq<int>, p: seq<int>, i: int) {
    && 0 <= i <= |key| == |p| && |cftab| >= size
    && (forall k :: 0 <= k < |key| ==> 0 <= key[k] < size)
    && (forall c :: 0 <= c < size ==> cftab[c] == Less(key, c) + Count(key[..i], c))
    && (forall k :: 0 <= k < i ==> Slot(key, k) < |p| && p[Slot(key, k)] == k)
  }

  lemma PlaceUp(key: seq<int>, size: int, cftab: seq<int>, p: seq<int>, i: int, c: int, k: int)
    requires PlacedUp(key, size, cftab, p, i) && i < |key| && c == key[i] && k == cftab[c]
    ensures k == Slot(key, i) < |p| && PlacedUp(key, size, cftab[c := k + 1], p[k := i], i + 1)
  {
    SlotRange(key, i);
    var cftab', p' := cftab[c := k + 1], p[k := i];
    forall d | 0 <= d < size ensures cftab'[d] == Less(key, d) + Count(key[..i + 1], d) {
      CountStep(key, i, d);
    }
    forall x | 0 <= x < i + 1 ensures Slot(key, x) < |p'| && p'[Slot(key, x)] == x {
      if Slot(key, x) == k { SlotDistinct(key, x, i); }
    }
  }

  /** The inverse of Slot is the stable listing. */
  ghost predicate InverseSlots(key: seq<int>, p: seq<int>) {
    && |p| == |key|
    && forall k :: 0 <= k < |key| ==> Slot(key, k) < |p| && p[Slot(key, k)] == k
  }

  lemma InverseSlotsStable(key: seq<int>, p: seq<int>)
    requires InverseSlots(key, p)
    ensures Stable(key, p)
    ensures forall s :: 0 <= s < |p| ==> 0 <= p[s] < |key| && Slot(key, p[s]) == s
  {
    hide Slot, Less, Bucketed, IsPerm;
    var slot := seq(|key|, (i: int) requires 0 <= i < |key| => Slot(key, i));
    forall i | 0 <= i < |slot|
      ensures 0 <= slot[i] < |p| && p[slot[i]] == i
      ensures Less(key, key[i]) <= slot[i] < Less(key, key[i] + 1)
    {
      SlotRange(key, i);
      assert slot[i] == Slot(key, i);
    }
    SlotsBucketed(key, p, slot);
    PlacesPerm(p, slot);
    forall s | 0 <= s < |p| ensures 0 <= p[s] < |key| && Slot(key, p[s]) == s {
      assert slot[p[s]] == s;
    }
    forall s, t | 0 <= s < t < |p| && key[p[s]] == key[p[t]] ensures p[s] < p[t] {
      assert Slot(key, p[s]) == s && Slot(key, p[t]) == t;
      if p[t] < p[s] { SlotIncreases(key, p[t], p[s]); }
    }
  }

  /** Every sequence of keys has a stable listing. */
  lemma {:induction false} SlotsInvert(key: seq<int>, i: nat) returns (p: seq<int>)
    requires i <= |key|
    ensures |p| == |key| && forall k :: 0 <= k < i ==> Slot(key, k) < |p| && p[Slot(key, k)] == k
  {
    hide Slot;
    if i == 0 {
      p := key;
    } else {
      var q := SlotsInvert(key, i - 1);
      SlotRange(key, i - 1);
      p := q[Slot(key, i - 1) := i - 1];
      forall k | 0 <= k < i ensures Slot(key, k) < |p| && p[Slot(key, k)] == k {
        if Slot(key, k) == Slot(key, i - 1) { SlotDistinct(key, k, i - 1); }
      }
    }
  }

  /** The slots have one inverse. */
  lemma OneInverse(key: seq<int>, p: seq<int>, q: seq<int>)
    requires InverseSlots(key, p) && InverseSlots(key, q)
    ensures p == q
  {
    hide Slot;
    InverseSlotsStable(key, p);
    forall s | 0 <= s < |p| ensures p[s] == q[s] {
      assert Slot(key, p[s]) == s && q[Slot(key, p[s])] == p[s];
    }
  }
}
