/**
  Canonical Huffman codes: BZ2_hbAssignCodes and BZ2_hbCreateDecodeTables (dep/bzip2/huffman.c,
  lines 152-200) and the bit-by-bit lookup of GET_MTF_VAL (dep/bzip2/decompress.c, lines 74-102).
  Codes are numbers; `len` gives the number of bits of each symbol's code.
*/
module CanonicalCode {
  import opened Common
  import opened Counting
  import opened HuffmanTree

  const MAX_CODE_LEN := 23
  const LONGEST := 20

  /** Code lengths a table may have. */
  ghost predicate Lengths(len: seq<int>) {
    forall i :: 0 <= i < |len| ==> 1 <= len[i] <= LONGEST
  }

  /** The first code of length n: `vec` when the assignment loop reaches n. */
  function FirstCode(len: seq<int>, n: nat): nat {
    if n == 0 then 0 else 2 * (FirstCode(len, n - 1) + Count(len, n - 1))
  }

  /** The code of symbol i. */
  ghost function Code(len: seq<int>, i: nat): nat
    requires i < |len| && len[i] >= 0
  {
    FirstCode(len, len[i]) + Count(len[..i], len[i])
  }

  /** One past the last code of length n. */
  ghost function Occupied(len: seq<int>, n: nat): nat {
    FirstCode(len, n) + Count(len, n)
  }

  lemma CodeBelow(len: seq<int>, i: nat)
    requires i < |len| && len[i] >= 0
    ensures FirstCode(len, len[i]) <= Code(len, i) < Occupied(len, len[i])
  {
    CountPrefix(len, i, len[i]);
  }

  /** Whatever the lengths, codes stay far from the end of Int32. */
  lemma {:induction false} FirstCodeScaled(len: seq<int>, n: nat)
    ensures FirstCode(len, n) <= Pow2(n) * Less(len, n)
  {
    hide Less, Count;
    if n > 0 {
      FirstCodeScaled(len, n - 1);
      LessNext(len, n - 1);
      ScaledStep(FirstCode(len, n - 1), Pow2(n - 1), Less(len, n - 1), Count(len, n - 1));
    }
  }

  lemma ScaledStep(f: int, p: int, a: int, c: int)
    requires f <= p * a && p >= 1 && c >= 0
    ensures 2 * (f + c) <= (2 * p) * (a + c)
  {
    assert (2 * p) * (a + c) == 2 * (p * a) + 2 * (p * c);
    if c > 0 { Scale(1, p, c); }
  }

  lemma FirstCodeSmall(len: seq<int>, n: nat)
    requires |len| <= 258 && n <= LONGEST + 1
    ensures 0 <= FirstCode(len, n) <= 258 * 0x20_0000
  {
    FirstCodeScaled(len, n);
    SmallPower(n);
    hide FirstCode, Less, Pow2;
    Products(Pow2(n), Less(len, n));
  }

  lemma Products(p: int, l: int)
    requires 0 <= p <= 0x20_0000 && 0 <= l <= 258
    ensures 0 <= p * l <= 258 * 0x20_0000
  {
    if l > 0 { Scale(p, 0x20_0000, l); }
  }

  lemma SmallPower(n: nat)
    requires n <= LONGEST + 1
    ensures Pow2(n) <= 0x20_0000
  {
    assert Pow2(11) == 2048 && Pow2(10) == 1024;
    Pow2Add(11, 10);
    Pow2Add(n, 21 - n);
    Scale(1, Pow2(21 - n), Pow2(n));
  }

  // ----- Kraft's inequality keeps codes within their lengths -----

  /** Kraft's sum over the codes of length at most n. */
  ghost function KraftUpTo(len: seq<int>, d: nat, n: nat): nat
    requires n <= d
    decreases |len|
  {
    if len == [] then 0
    else
      var k := |len| - 1;
      KraftUpTo(len[..k], d, n) + if 0 <= len[k] <= n then Pow2(d - len[k]) else 0
  }

  lemma {:induction false} KraftUpToNext(len: seq<int>, d: nat, n: nat)
    requires 0 < n <= d
    ensures KraftUpTo(len, d, n) == KraftUpTo(len, d, n - 1) + Count(len, n) * Pow2(d - n)
  {
    if len != [] {
      var k := |len| - 1;
      KraftUpToNext(len[..k], d, n);
      if len[k] == n { Distribute(Count(len[..k], n), 1, Pow2(d - n)); }
    }
  }

  lemma {:induction false} KraftUpToNone(len: seq<int>, d: nat)
    requires Lengths(len)
    ensures KraftUpTo(len, d, 0) == 0 && Count(len, 0) == 0
  {
    if len != [] { KraftUpToNone(len[..|len| - 1], d); }
  }

  lemma {:induction false} KraftUpToBound(len: seq<int>, d: nat, n: nat)
    requires n <= d && forall i :: 0 <= i < |len| ==> 0 <= len[i] <= d
    ensures KraftUpTo(len, d, n) <= Kraft(len, d)
  {
    if len != [] { KraftUpToBound(len[..|len| - 1], d, n); }
  }

  lemma {:induction false} OccupiedKraft(len: seq<int>, d: nat, n: nat)
    requires Lengths(len) && n <= d
    ensures Occupied(len, n) * Pow2(d - n) == KraftUpTo(len, d, n)
    decreases n
  {
    if n == 0 {
      KraftUpToNone(len, d);
    } else {
      OccupiedKraft(len, d, n - 1);
      KraftUpToNext(len, d, n);
      var p := Pow2(d - n);
      assert Pow2(d - (n - 1)) == 2 * p;
      Distribute(FirstCode(len, n), Count(len, n), p);
      Twice(Occupied(len, n - 1), p);
    }
  }

  lemma Twice(a: int, p: int)
    ensures a * (2 * p) == (2 * a) * p
  {
  }

  /** Under Kraft's inequality every code fits in its length. */
  lemma CodesFit(len: seq<int>, d: nat, n: nat)
    requires Lengths(len) && n <= d && (forall i :: 0 <= i < |len| ==> len[i] <= d) && Kraft(len, d) <= Pow2(d)
    ensures Occupied(len, n) <= Pow2(n)
  {
    hide Pow2, Kraft, KraftUpTo, Occupied;
    OccupiedKraft(len, d, n);
    KraftUpToBound(len, d, n);
    Pow2Add(n, d - n);
    CancelLess(Occupied(len, n), Pow2(n), Pow2(d - n));
  }

  lemma CancelLess(a: int, b: int, c: int)
    requires c > 0 && a * c <= b * c
    ensures a <= b
  {
  }

  /** Longer codes continue after all shorter ones: the reason the code is prefix free. */
  lemma {:induction false} Continue(len: seq<int>, n: nat, l: nat)
    requires n < l
    ensures Occupied(len, n) * Pow2(l - n) <= FirstCode(len, l)
    decreases l
  {
    if n + 1 == l {
      assert Pow2(1) == 2;
    } else {
      Continue(len, n, l - 1);
      assert Pow2(l - n) == 2 * Pow2(l - 1 - n);
      Twice(Occupied(len, n), Pow2(l - 1 - n));
      var a, b := Occupied(len, n) * Pow2(l - 1 - n), FirstCode(len, l - 1);
      assert Occupied(len, n) * Pow2(l - n) == 2 * a by { Rotate(Occupied(len, n), Pow2(l - 1 - n)); }
    }
  }

  lemma Rotate(a: int, p: int)
    ensures a * (2 * p) == 2 * (a * p)
  {
  }

  // ----- the tables -----

  /** limit, base, perm and minLen of one coding table. */
  datatype Tables = Tables(limit: seq<int>, base: seq<int>, perm: seq<int>, minLen: int)

  /** What BZ2_hbCreateDecodeTables leaves in the arrays. */
  ghost predicate TablesFor(tab: Tables, len: seq<int>, maxLen: int) {
    && Lengths(len) && 1 <= tab.minLen <= maxLen <= LONGEST
    && |tab.limit| > LONGEST && |tab.base| > LONGEST && |len| <= |tab.perm|
    && (forall i :: 0 <= i < |len| ==> tab.minLen <= len[i] <= maxLen)
    && (forall n :: tab.minLen <= n <= maxLen ==> tab.limit[n] == Occupied(len, n) - 1)
    && (forall n :: maxLen < n <= LONGEST ==> tab.limit[n] == 0)
    && (forall n :: tab.minLen <= n <= maxLen ==> tab.base[n] == FirstCode(len, n) - Less(len, n))
    && (forall i :: 0 <= i < |len| ==> Slot(len, i) < |len| && tab.perm[Slot(len, i)] == i)
  }

  /** Looking a full code up yields its symbol. */
  lemma LookUp(tab: Tables, len: seq<int>, maxLen: int, i: nat)
    requires TablesFor(tab, len, maxLen) && i < |len|
    ensures Code(len, i) <= tab.limit[len[i]]
    ensures Code(len, i) - tab.base[len[i]] == Slot(len, i) < |len|
    ensures tab.perm[Code(len, i) - tab.base[len[i]]] == i
  {
    CodeBelow(len, i);
  }

  /** A proper prefix of a code is beyond the limit of its length, so the loop reads on. */
  lemma ReadOn(tab: Tables, len: seq<int>, maxLen: int, i: nat, n: nat, z: nat)
    requires TablesFor(tab, len, maxLen) && i < |len| && tab.minLen <= n < len[i]
    requires z * Pow2(len[i] - n) <= Code(len, i) < (z + 1) * Pow2(len[i] - n)
    ensures z > tab.limit[n]
  {
    var l := len[i];
    CodeBelow(len, i);
    Continue(len, n, l);
    if z + 1 <= Occupied(len, n) {
      Scale(z + 1, Occupied(len, n), Pow2(l - n));
    }
  }

  lemma Scale(a: int, b: int, c: int)
    requires a <= b && c > 0
    ensures a * c <= b * c
  {
  }

  // ----- BZ2_hbAssignCodes -----

  /** No code is shorter than minLen, so `vec` may start from 0 there. */
  lemma {:induction false} FirstCodeZero(len: seq<int>, n: nat)
    requires forall i :: 0 <= i < |len| ==> len[i] >= n
    ensures FirstCode(len, n) == 0
    decreases n
  {
    if n > 0 {
      FirstCodeZero(len, n - 1);
      CountAbsent(len, n - 1);
    }
  }

  lemma {:induction false} CountAbsent(len: seq<int>, x: int)
    requires forall i :: 0 <= i < |len| ==> len[i] != x
    ensures Count(len, x) == 0
  {
    if len != [] { CountAbsent(len[..|len| - 1], x); }
  }

  method AssignCodes(code: array<int>, length: array<int>, minLen: int, maxLen: int, alphaSize: int)
    requires code != length && 0 <= alphaSize <= code.Length && alphaSize <= length.Length
    requires 0 <= minLen && forall i :: 0 <= i < alphaSize ==> minLen <= length[i] <= maxLen
    modifies code
    ensures forall i :: 0 <= i < alphaSize ==> code[i] == Code(length[..alphaSize], i)
  {
    ghost var len := length[..alphaSize];
    var vec := 0;
    FirstCodeZero(len, minLen);
    hide FirstCode, Count;
    var n := minLen;
    while n <= maxLen
      invariant minLen <= n && vec == FirstCode(len, n)
      invariant forall k :: 0 <= k < alphaSize && len[k] < n ==> code[k] == FirstCode(len, len[k]) + Count(len[..k], len[k])
      decreases maxLen - n
    {
      CountEmpty(len, n);
      for i := 0 to alphaSize
        invariant vec == FirstCode(len, n) + Count(len[..i], n)
        invariant forall k :: 0 <= k < alphaSize && (len[k] < n || (len[k] == n && k < i)) ==>
                    code[k] == FirstCode(len, len[k]) + Count(len[..k], len[k])
      {
        CountStep(len, i, n);
        if length[i] == n {
          code[i] := vec;
          vec := vec + 1;
        }
      }
      assert len[..alphaSize] == len;
      FirstCodeNext(len, n);
      vec := vec * 2;
      n := n + 1;
    }
  }

  lemma CountEmpty(len: seq<int>, n: int)
    ensures Count(len[..0], n) == 0
  {
  }

  lemma FirstCodeNext(len: seq<int>, n: nat)
    ensures FirstCode(len, n + 1) == 2 * (FirstCode(len, n) + Count(len, n))
  {
  }

  // ----- BZ2_hbCreateDecodeTables -----

  /** Symbols shorter than i, and the first j of length i, have been listed in perm[0], ..., perm[pp - 1]. */
  ghost predicate Listed(perm: seq<int>, len: seq<int>, i: int, j: int, pp: int) {
    && 0 <= j <= |len| <= |perm| && pp == Less(len, i) + Count(len[..j], i) <= |len|
    && forall k :: 0 <= k < |len| && (len[k] < i || (len[k] == i && k < j)) ==>
         Slot(len, k) < pp && perm[Slot(len, k)] == k
  }

  lemma ListNext(perm: seq<int>, len: seq<int>, i: int, j: int, pp: int)
    requires Listed(perm, len, i, j, pp) && j < |len|
    ensures len[j] != i ==> Listed(perm, len, i, j + 1, pp)
    ensures len[j] == i ==> 0 <= pp < |perm| && Listed(perm[pp := j], len, i, j + 1, pp + 1)
  {
    CountStep(len, j, i);
    if len[j] == i {
      assert pp == Slot(len, j);
      SlotRange(len, j);
    }
  }

  lemma ListLength(perm: seq<int>, len: seq<int>, i: int, pp: int)
    requires Listed(perm, len, i, |len|, pp)
    ensures Listed(perm, len, i + 1, 0, pp)
  {
    assert len[..|len|] == len;
    LessNext(len, i);
  }

  lemma ListStart(perm: seq<int>, len: seq<int>, minLen: int)
    requires |len| <= |perm| && forall i :: 0 <= i < |len| ==> len[i] >= minLen
    ensures Listed(perm, len, minLen, 0, 0)
  {
    LessAll(len, minLen);
  }

  lemma ListEnd(perm: seq<int>, len: seq<int>, i: int, pp: int)
    requires Listed(perm, len, i, 0, pp) && forall k :: 0 <= k < |len| ==> len[k] < i
    ensures forall k :: 0 <= k < |len| ==> Slot(len, k) < |len| && perm[Slot(len, k)] == k
  {
    forall k | 0 <= k < |len| ensures Slot(len, k) < |len| && perm[Slot(len, k)] == k {
      SlotRange(len, k);
    }
  }

  /** The loop that fills `perm`: the symbols by length, equal lengths in order. */
  method FillPerm(perm: array<int>, length: array<int>, minLen: int, maxLen: int, alphaSize: int)
    requires perm != length && 0 <= alphaSize <= perm.Length && alphaSize <= length.Length
    requires forall i :: 0 <= i < alphaSize ==> minLen <= length[i] <= maxLen
    modifies perm
    ensures forall i :: 0 <= i < alphaSize ==> Slot(length[..alphaSize], i) < alphaSize && perm[Slot(length[..alphaSize], i)] == i
  {
    hide Less, Count, Slot, Listed;
    ghost var len := length[..alphaSize];
    ListStart(perm[..], len, minLen);
    var pp := 0;
    var i := minLen;
    while i <= maxLen
      invariant minLen <= i && Listed(perm[..], len, i, 0, pp) && (i <= maxLen || i == maxLen + 1 || i == minLen)
      decreases maxLen - i
    {
      for j := 0 to alphaSize
        invariant Listed(perm[..], len, i, j, pp)
      {
        ghost var f := perm[..];
        ListNext(f, len, i, j, pp);
        if length[j] == i {
          perm[pp] := j;
          assert perm[..] == f[pp := j];
          pp := pp + 1;
        }
      }
      ListLength(perm[..], len, i, pp);
      i := i + 1;
    }
    ListEnd(perm[..], len, i, pp);
  }

  lemma CountStepAll(len: seq<int>, i: int)
    requires 0 <= i < |len|
    ensures forall n :: Count(len[..i + 1], n) == Count(len[..i], n) + if len[i] == n then 1 else 0
  {
    forall n ensures Count(len[..i + 1], n) == Count(len[..i], n) + if len[i] == n then 1 else 0 {
      CountStep(len, i, n);
    }
  }

  /** The counting loops: base[i] becomes the number of symbols with codes shorter than i. */
  method CountLengths(base: array<int>, length: array<int>, alphaSize: int)
    requires base != length && base.Length >= MAX_CODE_LEN && 0 <= alphaSize <= length.Length
    requires forall i :: 0 <= i < alphaSize ==> 1 <= length[i] <= LONGEST
    modifies base
    ensures forall n :: 0 <= n < MAX_CODE_LEN ==> base[n] == Less(length[..alphaSize], n)
  {
    ghost var len := length[..alphaSize];
    for i := 0 to MAX_CODE_LEN
      invariant forall n :: 0 <= n < i ==> base[n] == 0
    {
      base[i] := 0;
    }
    for i := 0 to alphaSize
      invariant forall n :: 0 <= n < MAX_CODE_LEN ==> base[n] == Count(len[..i], n - 1)
    {
      CountStepAll(len, i);
      base[length[i] + 1] := base[length[i] + 1] + 1;
    }
    assert len[..alphaSize] == len;
    LessAll(len, 0);
    LessNext(len, -1);
    LessMonotone(len, -1, 0);
    for i := 1 to MAX_CODE_LEN
      invariant forall n :: 0 <= n < i ==> base[n] == Less(len, n)
      invariant forall n :: i <= n < MAX_CODE_LEN ==> base[n] == Count(len, n - 1)
    {
      LessNext(len, i - 1);
      base[i] := base[i] + base[i - 1];
    }
  }

  method CreateDecodeTables(limit: array<int>, base: array<int>, perm: array<int>, length: array<int>,
                            minLen: int, maxLen: int, alphaSize: int)
    requires limit != base && limit != perm && limit != length && base != perm && base != length && perm != length
    requires limit.Length == base.Length == perm.Length == 258 && 0 <= alphaSize <= 258 && alphaSize <= length.Length
    requires 1 <= minLen <= maxLen <= LONGEST
    requires forall i :: 0 <= i < alphaSize ==> minLen <= length[i] <= maxLen
    modifies limit, base, perm
    ensures TablesFor(Tables(limit[..], base[..], perm[..], minLen), length[..alphaSize], maxLen)
  {
    hide Less, Count, Slot, FirstCode;
    ghost var len := length[..alphaSize];
    LessAll(len, minLen);
    FirstCodeZero(len, minLen);
    FillPerm(perm, length, minLen, maxLen, alphaSize);
    CountLengths(base, length, alphaSize);
    FillLimit(limit, base, minLen, maxLen, len);
    FillBase(limit, base, minLen, maxLen, len);
  }

  /** The last loop: what to take off a code to get the place of its symbol. */
  method FillBase(limit: array<int>, base: array<int>, minLen: int, maxLen: int, ghost len: seq<int>)
    requires limit != base && limit.Length == base.Length == 258 && 1 <= minLen <= maxLen <= LONGEST && |len| <= 258
    requires forall n :: minLen <= n <= maxLen ==> limit[n] == Occupied(len, n) - 1
    requires forall n :: minLen <= n <= maxLen ==> base[n] == Less(len, n)
    requires base[minLen] == FirstCode(len, minLen) - Less(len, minLen)
    modifies base
    ensures forall n :: minLen <= n <= maxLen ==> base[n] == FirstCode(len, n) - Less(len, n)
  {
    hide Less, Count, FirstCode;
    var i := minLen + 1;
    while i <= maxLen
      invariant minLen < i <= maxLen + 1
      invariant forall n :: minLen <= n < i ==> base[n] == FirstCode(len, n) - Less(len, n)
      invariant forall n :: i <= n <= maxLen ==> base[n] == Less(len, n)
      decreases maxLen - i
    {
      FirstCodeNext(len, i - 1);
      FirstCodeSmall(len, i);
      var first: Int32 := (limit[i - 1] + 1) * 2;
      var off: Int32 := first - base[i];
      base[i] := off;
      i := i + 1;
    }
  }

  /** The loop that fills `limit`. */
  method FillLimit(limit: array<int>, base: array<int>, minLen: int, maxLen: int, ghost len: seq<int>)
    requires limit != base && limit.Length == base.Length == 258 && 1 <= minLen <= maxLen <= LONGEST && |len| <= 258
    requires FirstCode(len, minLen) == 0
    requires forall n :: 0 <= n < MAX_CODE_LEN ==> base[n] == Less(len, n)
    modifies limit
    ensures forall n :: minLen <= n <= maxLen ==> limit[n] == Occupied(len, n) - 1
    ensures forall n :: maxLen < n < MAX_CODE_LEN ==> limit[n] == 0
  {
    hide Less, Count, FirstCode;
    for i := 0 to MAX_CODE_LEN
      invariant forall n :: 0 <= n < i ==> limit[n] == 0
    {
      limit[i] := 0;
    }
    var vec: Int32 := 0;
    var i := minLen;
    while i <= maxLen
      invariant minLen <= i <= maxLen + 1 && vec == FirstCode(len, i)
      invariant forall n :: minLen <= n < i ==> limit[n] == Occupied(len, n) - 1
      invariant forall n :: maxLen < n < MAX_CODE_LEN ==> limit[n] == 0
      decreases maxLen - i
    {
      LessNext(len, i);
      FirstCodeNext(len, i);
      FirstCodeSmall(len, i + 1);
      vec := vec + (base[i + 1] - base[i]);
      limit[i] := vec - 1;
      vec := vec * 2;
      i := i + 1;
    }
  }
}
