/** Bytes, permutations of index ranges, and rearrangements of a stretch of a sequence. */
module Common {

  /** A `UChar`. */
  type Byte = x: int | 0 <= x < 256

  /** The source's signed 32-bit numbers, and its unsigned ones. */
  type Int32 = x: int | -0x8000_0000 <= x <= 0x7fff_ffff
  type UInt32 = x: int | 0 <= x <= 0xffff_ffff

  function Min(a: int, b: int): int {
    if a < b then a else b
  }

  function Max(a: int, b: int): int {
    if a > b then a else b
  }

  function Pow2(n: nat): (r: nat)
    ensures r >= 1
  {
    if n == 0 then 1 else 2 * Pow2(n - 1)
  }

  lemma {:induction false} Pow2Add(a: nat, b: nat)
    ensures Pow2(a + b) == Pow2(a) * Pow2(b)
  {
    if a > 0 {
      Pow2Add(a - 1, b);
      assert Pow2(a + b) == 2 * Pow2(a - 1 + b);
    }
  }

  /** The operator |, bit by bit. */
  function BitOr(a: nat, b: nat): nat {
    if a == 0 then b
    else if b == 0 then a
    else 2 * BitOr(a / 2, b / 2) + if a % 2 == 1 || b % 2 == 1 then 1 else 0
  }

  lemma OrHalves(a: nat, b: nat)
    ensures BitOr(a, b) == 2 * BitOr(a / 2, b / 2) + if a % 2 == 1 || b % 2 == 1 then 1 else 0
  {
    if a == 0 {
      assert BitOr(0, b / 2) == b / 2;
    } else if b == 0 {
      assert BitOr(a / 2, 0) == a / 2;
    }
  }

  lemma {:induction false} OrCommutes(a: nat, b: nat)
    ensures BitOr(a, b) == BitOr(b, a)
  {
    if a != 0 && b != 0 { OrCommutes(a / 2, b / 2); }
  }

  lemma DoubleProduct(n: nat, h: nat)
    requires n > 0
    ensures Pow2(n) * h == 2 * (Pow2(n - 1) * h)
  {
  }

  lemma HalfSum(low: nat, v: nat)
    ensures (low + 2 * v) / 2 == low / 2 + v && (low + 2 * v) % 2 == low % 2
  {
  }

  /** Where the second operand has no low bits, they are those of the first. */
  lemma {:induction false} OrAbove(low: nat, x: nat, h: nat, n: nat)
    requires low < Pow2(n)
    ensures BitOr(low + Pow2(n) * x, Pow2(n) * h) == low + Pow2(n) * BitOr(x, h)
  {
    hide BitOr;
    if n > 0 {
      DoubleProduct(n, h);
      DoubleProduct(n, x);
      DoubleProduct(n, BitOr(x, h));
      var w, v := Pow2(n - 1) * h, Pow2(n - 1) * x;
      HalfSum(low, v);
      OrHalves(low + 2 * v, 2 * w);
      OrAbove(low / 2, x, h, n - 1);
    }
  }

  /** Operands that share no bit: the or is their sum. */
  lemma DisjointOr(low: nat, h: nat, n: nat)
    requires low < Pow2(n)
    ensures BitOr(low, Pow2(n) * h) == low + Pow2(n) * h == BitOr(Pow2(n) * h, low)
  {
    assert BitOr(0, h) == h && low + Pow2(n) * 0 == low;
    OrAbove(low, 0, h, n);
    OrCommutes(low, Pow2(n) * h);
  }

  function Sum(s: seq<int>): int {
    if s == [] then 0 else Sum(s[..|s| - 1]) + s[|s| - 1]
  }

  /** `p` lists each of 0, ..., |p| - 1 exactly once. */
  ghost predicate IsPerm(p: seq<int>) {
    && (forall i :: 0 <= i < |p| ==> 0 <= p[i] < |p|)
    && (forall i, j :: 0 <= i < j < |p| ==> p[i] != p[j])
  }

  /** How often `x` occurs in `s`. */
  function Count<T(==)>(s: seq<T>, x: T): nat {
    if s == [] then 0 else Count(s[..|s| - 1], x) + if s[|s| - 1] == x then 1 else 0
  }

  ghost predicate SameItems<T(!new)>(a: seq<T>, b: seq<T>) {
    |a| == |b| && forall x: T :: Count(a, x) == Count(b, x)
  }

  /** `b` is `a` with the entries at positions lo, ..., hi - 1 rearranged. */
  ghost predicate Rearranged<T(!new)>(a: seq<T>, b: seq<T>, lo: int, hi: int) {
    && SameItems(a, b)
    && (forall i :: 0 <= i < |a| && !(lo <= i < hi) ==> a[i] == b[i])
  }

  lemma RearrangedChain<T(!new)>(a: seq<T>, b: seq<T>, c: seq<T>, lo: int, hi: int)
    requires Rearranged(a, b, lo, hi) && Rearranged(b, c, lo, hi)
    ensures Rearranged(a, c, lo, hi)
  {
  }

  lemma RearrangedSymmetric<T(!new)>(a: seq<T>, b: seq<T>, lo: int, hi: int)
    requires Rearranged(a, b, lo, hi)
    ensures Rearranged(b, a, lo, hi)
  {
  }

  lemma RearrangedWiden<T(!new)>(a: seq<T>, b: seq<T>, lo: int, hi: int, lo': int, hi': int)
    requires Rearranged(a, b, lo, hi) && lo' <= lo && hi <= hi'
    ensures Rearranged(a, b, lo', hi')
  {
  }

  lemma {:induction false} CountUpdate<T>(s: seq<T>, i: int, v: T, x: T)
    requires 0 <= i < |s|
    ensures Count(s[i := v], x) == Count(s, x) - (if s[i] == x then 1 else 0) + (if v == x then 1 else 0)
  {
    var t := s[..|s| - 1];
    if i < |s| - 1 {
      assert s[i := v][..|s| - 1] == t[i := v];
      CountUpdate(t, i, v, x);
    } else {
      assert s[i := v][..|s| - 1] == t;
    }
  }

  lemma {:induction false} CountConcat<T>(a: seq<T>, b: seq<T>, x: T)
    ensures Count(a + b, x) == Count(a, x) + Count(b, x)
  {
    if b == [] {
      assert a + b == a;
    } else {
      assert (a + b)[..|a + b| - 1] == a + b[..|b| - 1];
      CountConcat(a, b[..|b| - 1], x);
    }
  }

  lemma {:induction false} CountIn<T>(s: seq<T>, x: T)
    ensures Count(s, x) > 0 <==> x in s
  {
    if s != [] {
      assert s == s[..|s| - 1] + [s[|s| - 1]];
      CountIn(s[..|s| - 1], x);
    }
  }

  /** Seen as a stretch on its own, a rearranged stretch has the same entries. */
  lemma RearrangedStretch<T(!new)>(a: seq<T>, b: seq<T>, lo: int, hi: int)
    requires Rearranged(a, b, lo, hi) && 0 <= lo <= hi <= |a|
    ensures SameItems(a[lo..hi], b[lo..hi])
  {
    forall x: T ensures Count(a[lo..hi], x) == Count(b[lo..hi], x) {
      assert a == a[..lo] + a[lo..hi] + a[hi..] && b == b[..lo] + b[lo..hi] + b[hi..];
      assert a[..lo] == b[..lo] && a[hi..] == b[hi..];
      CountConcat(a[..lo] + a[lo..hi], a[hi..], x);
      CountConcat(a[..lo], a[lo..hi], x);
      CountConcat(b[..lo] + b[lo..hi], b[hi..], x);
      CountConcat(b[..lo], b[lo..hi], x);
    }
  }

  /** Every entry of a rearranged stretch comes from that stretch. */
  lemma RearrangedFrom<T(!new)>(a: seq<T>, b: seq<T>, lo: int, hi: int, i: int) returns (k: int)
    requires Rearranged(a, b, lo, hi) && 0 <= lo <= i < hi <= |a|
    ensures lo <= k < hi && b[i] == a[k]
  {
    RearrangedStretch(a, b, lo, hi);
    assert b[lo..hi][i - lo] == b[i];
    CountIn(b[lo..hi], b[i]);
    CountIn(a[lo..hi], b[i]);
    k :| 0 <= k < hi - lo && a[lo..hi][k] == b[i];
    k := k + lo;
  }

  lemma SwapSameItems<T(!new)>(a: seq<T>, i: int, j: int)
    requires 0 <= i < |a| && 0 <= j < |a|
    ensures SameItems(a, a[i := a[j]][j := a[i]])
  {
    forall x: T ensures Count(a, x) == Count(a[i := a[j]][j := a[i]], x) {
      CountUpdate(a, i, a[j], x);
      CountUpdate(a[i := a[j]], j, a[i], x);
    }
  }

  /** Moving the entry at `j` into the hole at `i` moves the hole to `j`. */
  lemma MoveHole<T(!new)>(a: seq<T>, v: T, i: int, j: int)
    requires 0 <= i < |a| && 0 <= j < |a| && i != j
    ensures SameItems(a[i := v], a[i := a[j]][j := v])
  {
    SwapSameItems(a[i := v], i, j);
    assert a[i := v][i := a[j]][j := v] == a[i := a[j]][j := v];
  }

  lemma CountTwice<T>(s: seq<T>, i: int, j: int)
    requires 0 <= i < j < |s| && s[i] == s[j]
    ensures Count(s, s[i]) >= 2
  {
    assert s == s[..j] + s[j..];
    CountConcat(s[..j], s[j..], s[i]);
    assert s[..j][i] == s[i] && s[j..][0] == s[i];
    CountIn(s[..j], s[i]);
    CountIn(s[j..], s[i]);
  }

  lemma {:induction false} CountDistinct<T>(s: seq<T>, x: T)
    requires forall i, j :: 0 <= i < j < |s| ==> s[i] != s[j]
    ensures Count(s, x) <= 1
  {
    if s != [] {
      var t := s[..|s| - 1];
      CountDistinct(t, x);
      CountIn(t, x);
    }
  }

  /** A rearrangement of a permutation is a permutation. */
  lemma PermRearranged(p: seq<int>, q: seq<int>)
    requires IsPerm(p) && SameItems(p, q)
    ensures IsPerm(q)
  {
    forall i | 0 <= i < |q| ensures 0 <= q[i] < |q| {
      CountIn(p, q[i]);
      CountIn(q, q[i]);
    }
    forall i, j | 0 <= i < j < |q| ensures q[i] != q[j] {
      if q[i] == q[j] {
        CountTwice(q, i, j);
        CountDistinct(p, q[i]);
      }
    }
  }

  /** The image of the first `k` entries of an injective sequence has `k` elements. */
  lemma {:induction false} PrefixCardinality(p: seq<int>, k: nat)
    requires k <= |p| && forall i, j :: 0 <= i < j < |p| ==> p[i] != p[j]
    ensures |(set i | 0 <= i < k :: p[i])| == k
  {
    if k > 0 {
      PrefixCardinality(p, k - 1);
      assert (set i | 0 <= i < k :: p[i]) == (set i | 0 <= i < k - 1 :: p[i]) + {p[k - 1]};
    }
  }

  function Range(n: nat): (r: set<int>)
    ensures |r| == n && forall x :: x in r <==> 0 <= x < n
  {
    if n == 0 then {} else Range(n - 1) + {n - 1}
  }

  lemma SubsetSize<T>(a: set<T>, b: set<T>)
    requires a <= b
    ensures |a| <= |b| && (|a| == |b| ==> a == b)
  {
    assert b == a + (b - a);
  }

  /** A permutation reaches every index. */
  lemma PermHits(p: seq<int>, v: int) returns (i: int)
    requires IsPerm(p) && 0 <= v < |p|
    ensures 0 <= i < |p| && p[i] == v
  {
    var image := set i | 0 <= i < |p| :: p[i];
    var range := Range(|p|);
    PrefixCardinality(p, |p|);
    SubsetSize(image, range);
    assert v in range;
    i :| 0 <= i < |p| && p[i] == v;
  }
}
