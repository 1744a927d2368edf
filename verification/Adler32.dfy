/**
  dep/zlib/adler32.c: the checksum of section 2.2 of RFC 1950, byte by byte, and the form that
  defers the reductions; and the checksum of a concatenation.
*/
module Adler32 {
  import opened Common

  const BASE := 65521
  const NMAX := 5552
  const WORD_MAX := 0xffff_ffff

  datatype Sums = Sums(s1: int, s2: int)

  /** One byte, both sums reduced at once. */
  function Add(s: Sums, b: Byte): Sums {
    Sums((s.s1 + b) % BASE, (s.s2 + (s.s1 + b)) % BASE)
  }

  function AddAll(s: Sums, buf: seq<Byte>): Sums {
    if buf == [] then s else Add(AddAll(s, buf[..|buf| - 1]), buf[|buf| - 1])
  }

  function Packed(s: Sums): int {
    s.s1 + 65536 * s.s2
  }

  function Unpacked(adler: int): Sums {
    Sums(adler % 65536, adler / 65536 % 65536)
  }

  /** A checksum: both halves are reduced. */
  predicate Checksum(adler: int) {
    0 <= adler <= WORD_MAX && Unpacked(adler).s1 < BASE && Unpacked(adler).s2 < BASE
  }

  function Reduce(s: Sums): Sums {
    Sums(s.s1 % BASE, s.s2 % BASE)
  }

  /** Both sums are those of a checksum. */
  predicate Low(s: Sums) {
    0 <= s.s1 < BASE && 0 <= s.s2 < BASE
  }

  /** Both sums fit half a word. */
  predicate Halves(s: Sums) {
    0 <= s.s1 < 65536 && 0 <= s.s2 < 65536
  }

  /** The checksum of a byte string that continues one with checksum `adler`. */
  function Adler(adler: int, buf: seq<Byte>): int {
    Packed(AddAll(Reduce(Unpacked(adler)), buf))
  }

  // ----- sums without reduction -----

  function Raw(s: Sums, buf: seq<Byte>): Sums {
    if buf == [] then s
    else
      var r := Raw(s, buf[..|buf| - 1]);
      Sums(r.s1 + buf[|buf| - 1], r.s2 + (r.s1 + buf[|buf| - 1]))
  }

  lemma ModAdd(a: int, b: int)
    ensures (a % BASE + b) % BASE == (a + b) % BASE
    ensures (b + a % BASE) % BASE == (b + a) % BASE
  {
    var q := a / BASE;
    assert a == BASE * q + a % BASE;
    ModShift(a % BASE + b, q);
  }

  lemma ModShift(x: int, q: int)
    ensures (x + BASE * q) % BASE == x % BASE
  {
    var r := x / BASE;
    assert x == BASE * r + x % BASE;
    assert x + BASE * q == BASE * (r + q) + x % BASE;
    Quotient(x + BASE * q, r + q, x % BASE);
  }

  lemma Quotient(y: int, q: int, r: int)
    requires y == BASE * q + r && 0 <= r < BASE
    ensures y % BASE == r
  {
  }

  /** Reducing at the end is reducing after every byte. */
  lemma {:induction false} RawReduces(s: Sums, buf: seq<Byte>)
    requires buf != [] || Low(s)
    ensures AddAll(s, buf) == Sums(Raw(s, buf).s1 % BASE, Raw(s, buf).s2 % BASE)
  {
    if buf != [] {
      var t, b := buf[..|buf| - 1], buf[|buf| - 1];
      if t != [] {
        RawReduces(s, t);
        StepReduces(Raw(s, t), AddAll(s, t), b);
      }
    }
  }

  /** The first byte reduces the sums it starts from. */
  lemma {:induction false} StartReduced(s: Sums, buf: seq<Byte>)
    requires buf != []
    ensures AddAll(s, buf) == AddAll(Reduce(s), buf)
  {
    var t, b := buf[..|buf| - 1], buf[|buf| - 1];
    if t == [] {
      StepReduces(s, Reduce(s), b);
    } else {
      StartReduced(s, t);
    }
  }

  lemma StepReduces(r: Sums, s: Sums, b: Byte)
    requires s == Sums(r.s1 % BASE, r.s2 % BASE)
    ensures Add(s, b) == Sums((r.s1 + b) % BASE, (r.s2 + (r.s1 + b)) % BASE)
  {
    ModAdd(r.s1, b);
    ModAdd(r.s1, r.s2 % BASE + b);
    ModAdd(r.s2, r.s1 + b);
  }

  /** How large the sums get over n bytes. */
  lemma {:induction false} RawBound(s: Sums, buf: seq<Byte>)
    requires Halves(s)
    ensures var n := |buf|;
            && 0 <= Raw(s, buf).s1 <= 65535 + 255 * n
            && 0 <= 2 * Raw(s, buf).s2 <= 2 * 65535 + 2 * n * 65535 + 255 * (n * (n + 1))
  {
    if buf != [] {
      var n := |buf|;
      RawBound(s, buf[..n - 1]);
      BoundStep(n);
    }
  }

  lemma BoundStep(n: int)
    ensures 2 * (n - 1) * 65535 + 2 * 65535 == 2 * n * 65535
    ensures (n - 1) * (n - 1 + 1) + 2 * n == n * (n + 1)
  {
  }

  /** NMAX bytes do not overflow a 32-bit word, even from sums that are not reduced. */
  lemma NoOverflow(s: Sums, buf: seq<Byte>)
    requires Halves(s) && |buf| <= NMAX
    ensures 0 <= Raw(s, buf).s1 <= WORD_MAX && 0 <= Raw(s, buf).s2 <= WORD_MAX
  {
    hide Raw;
    RawBound(s, buf);
    var n := |buf|;
    Largest(n);
  }

  lemma Largest(n: nat)
    requires n <= NMAX
    ensures n * (n + 1) <= NMAX * (NMAX + 1)
  {
    Grow(n, NMAX, n + 1);
    Grow(n + 1, NMAX + 1, NMAX);
  }

  lemma Grow(a: int, b: int, c: int)
    requires a <= b && c >= 0
    ensures a * c <= b * c && c * a <= c * b
  {
  }

  /** NMAX is the largest such number. */
  lemma NMaxIsLargest()
    ensures 255 * (NMAX * (NMAX + 1)) / 2 + (NMAX + 1) * (BASE - 1) <= WORD_MAX
    ensures 255 * ((NMAX + 1) * (NMAX + 2)) / 2 + (NMAX + 2) * (BASE - 1) > WORD_MAX
  {
  }

  lemma {:induction false} AddAllConcat(s: Sums, a: seq<Byte>, b: seq<Byte>)
    ensures AddAll(s, a + b) == AddAll(AddAll(s, a), b)
  {
    if b == [] {
      assert a + b == a;
    } else {
      AddAllConcat(s, a, b[..|b| - 1]);
      assert (a + b)[..|a + b| - 1] == a + b[..|b| - 1];
    }
  }

  // ----- MOD -----

  /** Without a divide instruction: subtracting BASE << 16, ..., BASE << 0 where it goes. */
  method Subtract(a0: int, top: nat) returns (a: int)
    requires 0 <= a0 < BASE * Pow2(top + 1)
    ensures a == a0 % BASE
  {
    a := a0;
    var k: int := top;
    while k >= 0
      invariant -1 <= k <= top && 0 <= a < BASE * Pow2(k + 1) && a % BASE == a0 % BASE
      decreases k
    {
      if a >= BASE * Pow2(k) {
        ModShift(a - BASE * Pow2(k), Pow2(k));
        a := a - BASE * Pow2(k);
      }
      k := k - 1;
    }
  }

  lemma PowersNeeded()
    ensures BASE * Pow2(17) > WORD_MAX && Pow2(5) == 32
  {
    assert Pow2(10) == 1024;
    assert Pow2(17) == 131072;
  }

  /** MOD: a word is reduced, by division or by subtracting. */
  method Mod(a: int, noDivide: bool) returns (r: int)
    requires 0 <= a <= WORD_MAX
    ensures r == a % BASE
  {
    PowersNeeded();
    if noDivide { r := Subtract(a, 16); } else { r := a % BASE; }
  }

  /** MOD4: enough for sums of fewer than sixteen bytes. */
  method Mod4(a: int, noDivide: bool) returns (r: int)
    requires 0 <= a < BASE * 32
    ensures r == a % BASE
  {
    PowersNeeded();
    if noDivide { r := Subtract(a, 4); } else { r := a % BASE; }
  }

  // ----- adler32 -----

  lemma RawNext(s: Sums, buf: seq<Byte>, from: nat, i: nat)
    requires from <= i < |buf|
    ensures var r := Raw(s, buf[from..i]);
            Raw(s, buf[from..i + 1]) == Sums(r.s1 + buf[i], r.s2 + (r.s1 + buf[i]))
  {
    assert buf[from..i + 1][..i - from] == buf[from..i];
  }

  lemma RawNone(s: Sums, buf: seq<Byte>, i: nat)
    requires i <= |buf|
    ensures Raw(s, buf[i..i]) == s
  {
  }

  /** Some bytes more, up to NMAX since the last reduction: 32-bit sums do not overflow. */
  method Run(buf: seq<Byte>, i0: nat, n: nat, adler0: int, sum20: int, ghost s: Sums, ghost from: nat)
    returns (adler: int, sum2: int)
    requires Halves(s) && from <= i0 && i0 + n <= |buf| && i0 + n - from <= NMAX
    requires Sums(adler0, sum20) == Raw(s, buf[from..i0])
    ensures Sums(adler, sum2) == Raw(s, buf[from..i0 + n]) && 0 <= adler <= WORD_MAX && 0 <= sum2 <= WORD_MAX
  {
    hide Raw;
    adler, sum2 := adler0, sum20;
    NoOverflow(s, buf[from..i0]);
    for i := i0 to i0 + n
      invariant Sums(adler, sum2) == Raw(s, buf[from..i]) && 0 <= adler <= WORD_MAX && 0 <= sum2 <= WORD_MAX
    {
      RawNext(s, buf, from, i);
      NoOverflow(s, buf[from..i + 1]);
      adler := adler + buf[i];
      sum2 := sum2 + adler;
    }
  }

  lemma Reduced(s: Sums, buf: seq<Byte>, from: nat, i: nat, start: Sums)
    requires from <= i <= |buf| && s == AddAll(start, buf[..from]) && (from < i || Low(s))
    ensures AddAll(start, buf[..i]) == Sums(Raw(s, buf[from..i]).s1 % BASE, Raw(s, buf[from..i]).s2 % BASE)
  {
    hide Raw, AddAll;
    assert buf[..i] == buf[..from] + buf[from..i];
    AddAllConcat(start, buf[..from], buf[from..i]);
    RawReduces(s, buf[from..i]);
  }

  lemma Nothing(start: Sums, buf: seq<Byte>)
    ensures AddAll(start, buf[..0]) == start && buf[..|buf|] == buf
  {
  }

  /** From these sums one subtraction of BASE does not reduce the second. Only sums that are not reduced are such. */
  predicate Overfull(s: Sums, b: Byte) {
    s.s2 + (s.s1 + b) % BASE >= 2 * BASE
  }

  /** A single byte. */
  method OneByte(s: Sums, b: Byte) returns (adler: int, sum2: int)
    requires Halves(s)
    ensures AddAll(s, [b]) == Sums(adler, if Overfull(s, b) then sum2 - BASE else sum2)
  {
    adler, sum2 := s.s1 + b, s.s2;
    if adler >= BASE { adler := adler - BASE; }
    sum2 := sum2 + adler;
    if sum2 >= BASE { sum2 := sum2 - BASE; }
    assert [b][..0] == [];
    ModAdd(s.s1 + b, s.s2);
    assert adler == (s.s1 + b) % BASE;
  }

  /** Fewer than sixteen bytes. */
  method FewBytes(s: Sums, buf: seq<Byte>, noDivide: bool) returns (adler: int, sum2: int)
    requires Halves(s) && |buf| < 16
    ensures Sums(adler, sum2) == AddAll(Reduce(s), buf)
  {
    hide Raw, AddAll;
    RawNone(s, buf, 0);
    adler, sum2 := Run(buf, 0, |buf|, s.s1, s.s2, s, 0);
    assert buf[0..|buf|] == buf;
    RawBound(s, buf);
    FewBound(|buf|);
    if buf != [] {
      RawReduces(s, buf);
      StartReduced(s, buf);
    } else {
      NoBytes(s);
    }
    if adler >= BASE { adler := adler - BASE; }
    sum2 := Mod4(sum2, noDivide);
  }

  lemma NoBytes(s: Sums)
    ensures Raw(s, []) == s && AddAll(Reduce(s), []) == Reduce(s)
  {
  }

  lemma FewBound(n: nat)
    requires n < 16
    ensures 2 * 65535 + 2 * n * 65535 + 255 * (n * (n + 1)) < 2 * (BASE * 32)
  {
    Grow(n, 15, n + 1);
    Grow(n + 1, 16, 15);
  }

  /** A block of NMAX bytes, sixteen at a time, reduced at the end. */
  method Block(buf: seq<Byte>, i0: nat, adler0: int, sum20: int, noDivide: bool, ghost start: Sums)
    returns (adler: int, sum2: int)
    requires i0 + NMAX <= |buf| && Sums(adler0, sum20) == AddAll(start, buf[..i0]) && Halves(Sums(adler0, sum20))
    ensures Sums(adler, sum2) == AddAll(start, buf[..i0 + NMAX]) && 0 <= adler < BASE && 0 <= sum2 < BASE
  {
    hide Raw, AddAll;
    ghost var s := Sums(adler0, sum20);
    RawNone(s, buf, i0);
    adler, sum2 := adler0, sum20;
    var i, n := i0, NMAX / 16;
    while n > 0
      invariant 0 <= n <= NMAX / 16 && i == i0 + 16 * (NMAX / 16 - n)
      invariant Sums(adler, sum2) == Raw(s, buf[i0..i])
    {
      adler, sum2 := Run(buf, i, 16, adler, sum2, s, i0);
      i := i + 16;
      n := n - 1;
    }
    NoOverflow(s, buf[i0..i]);
    Reduced(s, buf, i0, i, start);
    adler := Mod(adler, noDivide);
    sum2 := Mod(sum2, noDivide);
  }

  /** The bytes left after the blocks. */
  method Remainder(buf: seq<Byte>, i0: nat, adler0: int, sum20: int, noDivide: bool, ghost start: Sums)
    returns (adler: int, sum2: int)
    requires i0 <= |buf| < i0 + NMAX && Sums(adler0, sum20) == AddAll(start, buf[..i0]) && Halves(Sums(adler0, sum20))
    ensures Sums(adler, sum2) == AddAll(start, buf)
  {
    hide Raw, AddAll;
    ghost var s := Sums(adler0, sum20);
    RawNone(s, buf, i0);
    adler, sum2 := adler0, sum20;
    Nothing(start, buf);
    var i, len := i0, |buf| - i0;
    if len != 0 {
      while len >= 16
        invariant i0 <= i && i + len == |buf| && len >= 0
        invariant Sums(adler, sum2) == Raw(s, buf[i0..i])
      {
        len := len - 16;
        adler, sum2 := Run(buf, i, 16, adler, sum2, s, i0);
        i := i + 16;
      }
      adler, sum2 := Run(buf, i, len, adler, sum2, s, i0);
      NoOverflow(s, buf[i0..|buf|]);
      Reduced(s, buf, i0, |buf|, start);
      adler := Mod(adler, noDivide);
      sum2 := Mod(sum2, noDivide);
    }
  }

  /**
    adler32, from any start value. The one-byte form subtracts BASE from the second sum once, which
    leaves it BASE too large exactly for the unreduced starts of Overfull.
  */
  method Adler32(adler0: nat, buf: seq<Byte>, isNull: bool, noDivide: bool) returns (r: int)
    requires isNull ==> |buf| != 1
    ensures r == if isNull then 1
                 else Adler(adler0, buf) + if |buf| == 1 && Overfull(Unpacked(adler0), buf[0]) then 65536 * BASE else 0
  {
    hide AddAll;
    ghost var start := Unpacked(adler0);
    var sum2 := adler0 / 65536 % 65536;
    var adler := adler0 % 65536;
    if |buf| == 1 {
      adler, sum2 := OneByte(Sums(adler, sum2), buf[0]);
      assert buf == [buf[0]];
      StartReduced(start, buf);
      return adler + 65536 * sum2;
    }
    if isNull { return 1; }
    if |buf| < 16 {
      adler, sum2 := FewBytes(Sums(adler, sum2), buf, noDivide);
      return adler + 65536 * sum2;
    }
    Nothing(start, buf);
    StartReduced(start, buf);
    var i := 0;
    while |buf| - i >= NMAX
      invariant 0 <= i <= |buf| && Halves(Sums(adler, sum2))
      invariant Sums(adler, sum2) == AddAll(start, buf[..i])
    {
      adler, sum2 := Block(buf, i, adler, sum2, noDivide, start);
      i := i + NMAX;
    }
    adler, sum2 := Remainder(buf, i, adler, sum2, noDivide, start);
    return adler + 65536 * sum2;
  }

  /** A start whose sums are not reduced, and a byte after which they still are not. */
  lemma OverfullStart()
    ensures Overfull(Unpacked(0xffff_fff0), 0)
  {
  }

  /** No checksum is such a start. */
  lemma ChecksumsFit(adler: int, b: Byte)
    requires Checksum(adler)
    ensures !Overfull(Unpacked(adler), b) && Reduce(Unpacked(adler)) == Unpacked(adler)
  {
  }

  // ----- adler32_combine_ -----

  /** The sums of a byte string from any start, from its sums from zero. */
  lemma {:induction false} RawFrom(s: Sums, buf: seq<Byte>)
    ensures Raw(s, buf).s1 == s.s1 + Raw(Sums(0, 0), buf).s1
    ensures Raw(s, buf).s2 == s.s2 + |buf| * s.s1 + Raw(Sums(0, 0), buf).s2
  {
    if buf != [] {
      RawFrom(s, buf[..|buf| - 1]);
      OneMore(|buf|, s.s1);
    }
  }

  lemma OneMore(n: int, x: int)
    ensures (n - 1) * x + x == n * x
  {
  }

  /** adler32_combine_ on the sums of two checksums. */
  function Combine(a: Sums, b: Sums, len2: nat): Sums {
    Sums((a.s1 + b.s1 - 1) % BASE, (len2 * a.s1 + a.s2 + b.s2 - len2) % BASE)
  }

  /** The sums of a concatenation, from those of its parts and the length of the second. */
  lemma CombineCorrect(x: seq<Byte>, y: seq<Byte>)
    ensures var one := Sums(1, 0);
            AddAll(one, x + y) == Combine(AddAll(one, x), AddAll(one, y), |y|)
  {
    hide Raw, AddAll;
    var one, zero := Sums(1, 0), Raw(Sums(0, 0), y);
    var a := AddAll(one, x);
    AddAllConcat(one, x, y);
    RawReduces(one, x);
    RawReduces(a, y);
    RawReduces(one, y);
    RawFrom(a, y);
    RawFrom(one, y);
    CombineSums(a, zero, |y|);
  }

  lemma CombineSums(a: Sums, zero: Sums, n: nat)
    ensures Combine(a, Sums((1 + zero.s1) % BASE, (n * 1 + zero.s2) % BASE), n) ==
            Sums((a.s1 + zero.s1) % BASE, (a.s2 + n * a.s1 + zero.s2) % BASE)
  {
    ModAdd(1 + zero.s1, a.s1 - 1);
    ModAdd(n + zero.s2, n * a.s1 + a.s2 - n);
  }

  /** The two conditional subtractions at the end of adler32_combine_ reduce either sum, unless it is too large. */
  method ReduceFirst(sum: int) returns (r: int)
    requires 0 <= sum < 4 * BASE
    ensures r == if sum < 3 * BASE then sum % BASE else sum - 2 * BASE
  {
    r := sum;
    if r >= BASE { r := r - BASE; }
    if r >= BASE { r := r - BASE; }
  }

  method ReduceSecond(sum: int) returns (r: int)
    requires 0 <= sum < 5 * BASE
    ensures r == if sum < 4 * BASE then sum % BASE else sum - 3 * BASE
  {
    r := sum;
    if r >= 2 * BASE { r := r - 2 * BASE; }
    if r >= BASE { r := r - BASE; }
  }

  /** The sums of two words leave room for the subtractions to reduce them. */
  predicate Settles(a: Sums, b: Sums, len2: nat) {
    && a.s1 + b.s1 - 1 < 2 * BASE
    && (len2 % BASE * a.s1) % BASE + a.s2 + b.s2 - len2 % BASE < 3 * BASE
  }

  /**
    adler32_combine_ on any two words: the result is the combined checksum exactly when they
    settle, as checksums do. Then no intermediate value leaves a 32-bit word.
  */
  method Adler32Combine(adler1: nat, adler2: nat, len2: nat, noDivide: bool) returns (r: int)
    ensures r == Packed(Combine(Unpacked(adler1), Unpacked(adler2), len2)) <==> Settles(Unpacked(adler1), Unpacked(adler2), len2)
    ensures Checksum(adler1) && Checksum(adler2) ==> r == Packed(Combine(Unpacked(adler1), Unpacked(adler2), len2))
  {
    hide Combine, BitOr;
    ghost var a, b := Unpacked(adler1), Unpacked(adler2);
    var rem := len2 % BASE;
    var sum1 := adler1 % 65536;
    Small(rem, sum1);
    var sum2 := Mod(rem * sum1, noDivide);
    sum1 := sum1 + (adler2 % 65536 + BASE - 1);
    sum2 := sum2 + (adler1 / 65536 % 65536 + adler2 / 65536 % 65536 + BASE - rem);
    CombinedHalves(a, b, len2, rem, sum1, sum2);
    CombineLow(a, b, len2);
    var r1 := ReduceFirst(sum1);
    var r2 := ReduceSecond(sum2);
    Settled(Combine(a, b, len2), sum1, sum2, r1, r2);
    return BitOr(r1, 65536 * r2);
  }

  lemma CombineLow(a: Sums, b: Sums, len2: nat)
    ensures Low(Combine(a, b, len2))
  {
  }

  /** Two words that do not settle. */
  lemma UnsettledWords()
    ensures !Settles(Unpacked(0xffff_ffff), Unpacked(0xffff_ffff), 0)
  {
  }

  /** Two halves or-ed into a word: the low sixteen bits are those of the first. */
  lemma OneWord(sum1: nat, sum2: nat)
    ensures BitOr(sum1, 65536 * sum2) == sum1 % 65536 + 65536 * BitOr(sum1 / 65536, sum2)
    ensures BitOr(0, sum2) == sum2
  {
    assert Pow2(8) == 256;
    Pow2Add(8, 8);
    hide BitOr, Pow2;
    OrAbove(sum1 % 65536, sum1 / 65536, sum2, 16);
    NothingAbove(sum2);
  }

  lemma NothingAbove(h: nat)
    ensures BitOr(0, h) == h
  {
  }

  /** The word of c exactly when they are its sums. */
  lemma WordOf(c: Sums, sum1: nat, sum2: nat, high: nat)
    requires Low(c) && sum1 % BASE == c.s1 && sum1 < 65536 + 15 && sum2 % BASE == c.s2
    requires sum1 < 65536 ==> high == sum2
    ensures sum1 % 65536 + 65536 * high == Packed(c) <==> sum1 < BASE && sum2 < BASE
  {
  }

  /** The combined sums end as a word that is the checksum exactly when both were reduced. */
  lemma Settled(c: Sums, sum1: nat, sum2: nat, r1: nat, r2: nat)
    requires Low(c) && sum1 % BASE == c.s1 && sum2 % BASE == c.s2 && sum1 <= 65535 + 65535 + BASE - 1 && sum2 < 5 * BASE
    requires r1 == if sum1 < 3 * BASE then sum1 % BASE else sum1 - 2 * BASE
    requires r2 == if sum2 < 4 * BASE then sum2 % BASE else sum2 - 3 * BASE
    ensures BitOr(r1, 65536 * r2) == Packed(c) <==> sum1 < 3 * BASE && sum2 < 4 * BASE
  {
    hide BitOr;
    OneWord(r1, r2);
    WordOf(c, r1, r2, BitOr(r1 / 65536, r2));
  }

  lemma Small(a: int, b: int)
    requires 0 <= a < BASE && 0 <= b < 65536
    ensures 0 <= a * b <= WORD_MAX
  {
    Grow(a, BASE - 1, b);
    Grow(b, 65535, BASE - 1);
  }

  lemma CombinedHalves(a: Sums, b: Sums, len2: nat, rem: int, sum1: int, sum2: int)
    requires rem == len2 % BASE && sum1 == a.s1 + (b.s1 + BASE - 1)
    requires sum2 == (rem * a.s1) % BASE + (a.s2 + b.s2 + BASE - rem)
    ensures sum1 % BASE == Combine(a, b, len2).s1 && sum2 % BASE == Combine(a, b, len2).s2
  {
    ModShift(a.s1 + b.s1 - 1, 1);
    var q := len2 / BASE;
    assert len2 == BASE * q + rem;
    ModAdd(rem * a.s1, a.s2 + b.s2 + BASE - rem);
    Regroup(rem, q, a.s1);
    ModShift(rem * a.s1 + (a.s2 + b.s2 + BASE - rem), q * a.s1 - q - 1);
  }

  lemma Regroup(rem: int, q: int, x: int)
    ensures (BASE * q + rem) * x == rem * x + BASE * (q * x)
    ensures BASE * (q * x - q - 1) == BASE * (q * x) - BASE * q - BASE
  {
  }

  lemma PackedBack(s: Sums)
    requires 0 <= s.s1 < BASE && 0 <= s.s2 < BASE
    ensures Unpacked(Packed(s)) == s && Checksum(Packed(s))
  {
  }

  lemma SumsReduced(s: Sums, buf: seq<Byte>)
    requires 0 <= s.s1 < BASE && 0 <= s.s2 < BASE
    ensures 0 <= AddAll(s, buf).s1 < BASE && 0 <= AddAll(s, buf).s2 < BASE
  {
  }

  /** Combining the checksums of two byte strings gives the checksum of both together. */
  lemma ChecksumsCombine(x: seq<Byte>, y: seq<Byte>)
    ensures Checksum(Adler(1, x)) && Checksum(Adler(1, y))
    ensures Packed(Combine(Unpacked(Adler(1, x)), Unpacked(Adler(1, y)), |y|)) == Adler(1, x + y)
  {
    hide AddAll, Combine;
    var one := Sums(1, 0);
    assert Unpacked(1) == one;
    SumsReduced(one, x);
    SumsReduced(one, y);
    PackedBack(AddAll(one, x));
    PackedBack(AddAll(one, y));
    CombineCorrect(x, y);
  }

  lemma AddNext(s: Sums, buf: seq<Byte>, b: Byte)
    ensures AddAll(s, buf + [b]) == Add(AddAll(s, buf), b)
  {
    assert (buf + [b])[..|buf|] == buf;
  }

  /** The checksum of the digits 1 to 9, from the initial value. */
  lemma CheckValue()
    ensures Adler(1, [0x31, 0x32, 0x33, 0x34, 0x35, 0x36, 0x37, 0x38, 0x39]) == 0x091e01de
  {
    hide AddAll;
    var one := Sums(1, 0);
    NothingAdded(one);
    AddNext(one, [], 0x31);
    assert [] + [0x31] == [0x31];
    assert AddAll(one, [0x31]) == Sums(50, 50);
    AddNext(one, [0x31], 0x32);
    assert [0x31] + [0x32] == [0x31, 0x32];
    assert AddAll(one, [0x31, 0x32]) == Sums(100, 150);
    AddNext(one, [0x31, 0x32], 0x33);
    assert [0x31, 0x32] + [0x33] == [0x31, 0x32, 0x33];
    assert AddAll(one, [0x31, 0x32, 0x33]) == Sums(151, 301);
    AddNext(one, [0x31, 0x32, 0x33], 0x34);
    assert [0x31, 0x32, 0x33] + [0x34] == [0x31, 0x32, 0x33, 0x34];
    assert AddAll(one, [0x31, 0x32, 0x33, 0x34]) == Sums(203, 504);
    AddNext(one, [0x31, 0x32, 0x33, 0x34], 0x35);
    assert [0x31, 0x32, 0x33, 0x34] + [0x35] == [0x31, 0x32, 0x33, 0x34, 0x35];
    assert AddAll(one, [0x31, 0x32, 0x33, 0x34, 0x35]) == Sums(256, 760);
    AddNext(one, [0x31, 0x32, 0x33, 0x34, 0x35], 0x36);
    assert [0x31, 0x32, 0x33, 0x34, 0x35] + [0x36] == [0x31, 0x32, 0x33, 0x34, 0x35, 0x36];
    assert AddAll(one, [0x31, 0x32, 0x33, 0x34, 0x35, 0x36]) == Sums(310, 1070);
    AddNext(one, [0x31, 0x32, 0x33, 0x34, 0x35, 0x36], 0x37);
    assert [0x31, 0x32, 0x33, 0x34, 0x35, 0x36] + [0x37] == [0x31, 0x32, 0x33, 0x34, 0x35, 0x36, 0x37];
    assert AddAll(one, [0x31, 0x32, 0x33, 0x34, 0x35, 0x36, 0x37]) == Sums(365, 1435);
    AddNext(one, [0x31, 0x32, 0x33, 0x34, 0x35, 0x36, 0x37], 0x38);
    assert [0x31, 0x32, 0x33, 0x34, 0x35, 0x36, 0x37] + [0x38] == [0x31, 0x32, 0x33, 0x34, 0x35, 0x36, 0x37, 0x38];
    assert AddAll(one, [0x31, 0x32, 0x33, 0x34, 0x35, 0x36, 0x37, 0x38]) == Sums(421, 1856);
    AddNext(one, [0x31, 0x32, 0x33, 0x34, 0x35, 0x36, 0x37, 0x38], 0x39);
    assert [0x31, 0x32, 0x33, 0x34, 0x35, 0x36, 0x37, 0x38] + [0x39] == [0x31, 0x32, 0x33, 0x34, 0x35, 0x36, 0x37, 0x38, 0x39];
    assert AddAll(one, [0x31, 0x32, 0x33, 0x34, 0x35, 0x36, 0x37, 0x38, 0x39]) == Sums(478, 2334);
  }

  lemma NothingAdded(s: Sums)
    ensures AddAll(s, []) == s
  {
  }
}
