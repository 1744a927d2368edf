/**
  dep/bzip2/blocksort.c, lines 205-209: the bucket header bits of fallbackSort, packed in
  32-bit words. A word is the sequence of its bits, bit k first at position k.
*/
module Bitmap {

  type Word = w: seq<bool> | |w| == 32 witness seq(32, i => false)

  const ZERO_WORD: Word := seq(32, i => false)

  /** The bits of all words, in order: what SET_BH, CLEAR_BH and ISSET_BH address. */
  ghost function Flat(t: seq<Word>): (h: seq<bool>)
    ensures |h| == 32 * |t|
    ensures forall i :: 0 <= i < |h| ==> h[i] == t[i / 32][i % 32]
  {
    seq(32 * |t|, (i: int) requires 0 <= i < 32 * |t| => t[i / 32][i % 32])
  }

  lemma FlatUpdate(t: seq<Word>, i: int, v: bool)
    requires 0 <= i < 32 * |t|
    ensures Flat(t[i / 32 := t[i / 32][i % 32 := v]]) == Flat(t)[i := v]
  {
    var w: Word := t[i / 32][i % 32 := v];
    var t' := t[i / 32 := w];
    forall k | 0 <= k < 32 * |t| ensures Flat(t')[k] == Flat(t)[i := v][k] {
      if k / 32 == i / 32 {
        assert k == i <==> k % 32 == i % 32;
      }
    }
  }

  /** SET_BH and CLEAR_BH. */
  method Put(t: array<Word>, i: int, v: bool)
    requires 0 <= i < 32 * t.Length
    modifies t
    ensures Flat(t[..]) == old(Flat(t[..]))[i := v]
  {
    FlatUpdate(t[..], i, v);
    ghost var t0 := t[..];
    t[i / 32] := t[i / 32][i % 32 := v];
    assert t[..] == t0[i / 32 := t0[i / 32][i % 32 := v]];
  }

  /** ISSET_BH. */
  method Get(t: array<Word>, i: int) returns (v: bool)
    requires 0 <= i < 32 * t.Length
    ensures v == Flat(t[..])[i]
  {
    v := t[i / 32][i % 32];
  }

  ghost predicate AllBits(h: seq<bool>, i: int, v: bool) {
    forall k :: i <= k < i + 32 && 0 <= k < |h| ==> h[k] == v
  }

  /** The test of WORD_BH against all ones or all zeros. */
  method WordIs(t: array<Word>, i: int, v: bool) returns (same: bool)
    requires 0 <= i < 32 * t.Length && i % 32 == 0
    ensures same ==> AllBits(Flat(t[..]), i, v)
    ensures !same ==> !AllBits(Flat(t[..]), i, v)
  {
    same := t[i / 32] == seq(32, _ => v);
    var w := t[i / 32];
    if !same {
      assert exists k :: 0 <= k < 32 && w[k] != v;
      ghost var k :| 0 <= k < 32 && w[k] != v;
      assert (i + k) / 32 == i / 32 && (i + k) % 32 == k;
      assert Flat(t[..])[i + k] != v;
    } else {
      forall k | i <= k < i + 32 ensures Flat(t[..])[k] == v {
        assert k / 32 == i / 32 && w[k % 32] == v;
      }
    }
  }

  /** The last of the three loops of a skip: bit by bit. */
  method SkipSingly(t: array<Word>, k0: int, v: bool, ghost stop: int) returns (k: int)
    requires 0 <= k0 <= stop < 32 * t.Length && Flat(t[..])[stop] == !v
    ensures k0 <= k <= stop && Flat(t[..])[k] == !v
    ensures forall x :: k0 <= x < k ==> Flat(t[..])[x] == v
  {
    hide Flat;
    ghost var h := Flat(t[..]);
    k := k0;
    var bit := Get(t, k);
    while bit == v
      invariant k0 <= k <= stop && bit == h[k]
      invariant forall x :: k0 <= x < k ==> h[x] == v
      decreases stop - k
    {
      k := k + 1;
      bit := Get(t, k);
    }
  }

  /** The second: from a word boundary, word by word. */
  method SkipWords(t: array<Word>, k0: int, v: bool, ghost stop: int) returns (k: int)
    requires 0 <= k0 <= stop < 32 * t.Length && Flat(t[..])[stop] == !v && k0 % 32 == 0
    ensures k0 <= k <= stop
    ensures forall x :: k0 <= x < k ==> Flat(t[..])[x] == v
  {
    hide Flat;
    ghost var h := Flat(t[..]);
    k := k0;
    var whole := WordIs(t, k, v);
    while whole
      invariant k0 <= k <= stop && k % 32 == 0
      invariant whole ==> AllBits(h, k, v)
      invariant forall x :: k0 <= x < k ==> h[x] == v
      decreases stop - k
    {
      k := k + 32;
      whole := WordIs(t, k, v);
    }
  }

  /**
    From k0 on, skip the bits equal to `v` (fallbackSort skips set bits to find where a bucket
    that is not a singleton starts, and clear bits to find where it ends): singly up to a word
    boundary, then by words, then singly. `stop` is any position where the run has ended.
  */
  method Skip(t: array<Word>, k0: int, v: bool, ghost stop: int) returns (k: int)
    requires 0 <= k0 <= stop < 32 * t.Length && Flat(t[..])[stop] == !v
    ensures k0 <= k <= stop && Flat(t[..])[k] == !v
    ensures forall x :: k0 <= x < k ==> Flat(t[..])[x] == v
  {
    hide Flat;
    ghost var h := Flat(t[..]);
    k := k0;
    var bit := Get(t, k);
    while bit == v && k % 32 != 0
      invariant k0 <= k <= stop && bit == h[k]
      invariant forall x :: k0 <= x < k ==> h[x] == v
      decreases stop - k
    {
      k := k + 1;
      bit := Get(t, k);
    }
    if bit == v {
      k := SkipWords(t, k, v, stop);
      k := SkipSingly(t, k, v, stop);
    }
  }
}
