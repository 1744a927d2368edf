/**
  Where BZ2_decompress (dep/bzip2/decompress.c, lines 290-314 and 376-395) does not test what it
  reads: inputs on which it would write past the selector arrays, or overflow the numbers of a run.
*/
module StrayRuns {
  import opened Common
  import opened BitIO
  import HT = HuffmanTree
  import opened Mtf
  import opened Decompress
  import opened BlockFormat
  import opened BlockRoundTrip
  import opened StreamFormat
  import ME = MtfEncoder

  /** Only byte 0 is in use. */
  function JustZero(): (u: seq<bool>)
    ensures |u| == 256
  {
    seq(256, i => i == 0)
  }

  lemma {:induction false} UsedZero(n: nat)
    requires 1 <= n <= 256
    ensures ME.Used(JustZero()[..n]) == [0]
    decreases n
  {
    var u := JustZero()[..n];
    assert u[..n - 1] == JustZero()[..n - 1];
    if n > 1 { UsedZero(n - 1); } else { assert u[..0] == []; }
  }

  lemma OnlyZero()
    ensures ME.Used(JustZero()) == [0]
  {
    UsedZero(256);
    assert JustZero()[..256] == JustZero();
  }

  // ----- too many selectors -----

  /** Zero bits are selectors in first place: with those before, more than the arrays hold. */
  lemma {:induction false} SelectorsStray(s: Saved, j: nat, rest: Bits)
    requires |s.selectorMtf| <= MAX_SELECTORS < |s.selectorMtf| + j && s.nSelectors > MAX_SELECTORS
    ensures Run(Running(Selector3(0), s), Zeros(j) + rest).0.Stray?
    decreases j
  {
    hide Run, UndoSelectors;
    assert Zeros(j) + rest == [false] + (Zeros(j - 1) + rest);
    RunBit(Selector3(0), s, false, Zeros(j - 1) + rest);
    if |s.selectorMtf| < MAX_SELECTORS {
      SelectorsStray(s.(selectorMtf := s.selectorMtf + [0]), j - 1, rest);
    } else {
      RunStops(Stray, Zeros(j - 1) + rest);
    }
  }

  /** A stream that announces n selectors and begins to give them. */
  ghost function ManySelectors(n: nat): Bits {
    StreamHeader(1) + (HeaderBits(0, 0) + (MappingBits(JustZero()) + (BitsOf(3, 2) + (BitsOf(15, n) + Zeros(n)))))
  }

  /** With more than 18002 selectors announced, and given, the decoder leaves its arrays. */
  lemma TooManySelectors(n: nat)
    requires MAX_SELECTORS < n < 32768
    ensures !Tame(Running(Magic(1), EmptySaved()), ManySelectors(n))
  {
    hide Run, Tame, FreeRun, StreamHeader, HeaderBits, MappingBits, BitsOf, ME.Used, Groups;
    var u, z := JustZero(), Zeros(n) + [];
    assert Zeros(n) + [] == Zeros(n);
    var s0 := EmptySaved().(blockSize100k := 1);
    FieldSizes();
    SmallPowers();
    OnlyZero();
    ReadStreamHeader(1, EmptySaved(), HeaderBits(0, 0) + (MappingBits(u) + (BitsOf(3, 2) + (BitsOf(15, n) + z))));
    ReadHeader(s0, 0, 0, MappingBits(u) + (BitsOf(3, 2) + (BitsOf(15, n) + z)));
    var s1 := s0.(storedCRC := 0, blockRandomised := false, origPtr := 0, inUse16 := [], inUse := Zeros(256));
    ReadMappingBits(s1, u, BitsOf(3, 2) + (BitsOf(15, n) + z));
    var s2 := s1.(inUse16 := Groups(u), inUse := u);
    RunField(Selector1, s2, 2, BitsOf(15, n) + z);
    RunField(Selector2, s2.(nGroups := 2), n, z);
    SelectorsStray(s2.(nGroups := 2, nSelectors := n, selectorMtf := []), n, []);
    StraysExactly(Running(Magic(1), EmptySaved()), ManySelectors(n));
  }

  lemma SmallPowers()
    ensures Pow2(32) >= 1 && Pow2(24) >= 1
  {
  }

  // ----- too long a run -----

  /** A block whose symbols are 31 run digits, and the end mark. */
  function LongRunBlock(): Block {
    Block(0, 0, JustZero(), 2, [0], [Repeat(2, 3), Repeat(2, 3)], Repeat(RUNA, 31) + [2])
  }

  lemma TwoBits()
    ensures Decodable(Repeat(2, 3), 3)
  {
    var l := Repeat(2, 3);
    assert l[..2] == Repeat(2, 2) && Repeat(2, 2)[..1] == Repeat(2, 1) && Repeat(2, 1)[..0] == [];
    assert HT.Kraft([], 20) == 0;
    assert HT.Kraft(Repeat(2, 1), 20) == Pow2(18);
    assert HT.Kraft(Repeat(2, 2), 20) == 2 * Pow2(18);
    assert HT.Kraft(l, 20) == 3 * Pow2(18);
    assert Pow2(20) == 4 * Pow2(18);
  }

  lemma LongRunFormed()
    ensures WellFormed(LongRunBlock())
  {
    hide ME.Used, HT.Kraft, Pow2, Decodable;
    OnlyZero();
    TwoBits();
    SmallPowers();
    var k := LongRunBlock();
    assert k.syms[..|k.syms| - 1] == Repeat(RUNA, 31);
  }

  /** The decoder after i digits RUNA. */
  function Digits(i: nat): Decoder {
    Decoder([], Initial(256), Pow2(i) - 1, Pow2(i))
  }

  lemma BigPowers(i: nat)
    requires i <= 30
    ensures Pow2(30) == 0x4000_0000 && Pow2(i) <= 0x4000_0000 && (i < 30 ==> 2 * Pow2(i) <= 0x4000_0000)
  {
    assert Pow2(10) == 1024;
    Pow2Add(10, 10);
    Pow2Add(20, 10);
    Pow2Add(i, 30 - i);
    Least(Pow2(i), Pow2(30 - i));
    if i < 30 {
      Pow2Add(i + 1, 29 - i);
      Least(Pow2(i + 1), Pow2(29 - i));
    }
  }

  lemma Least(a: nat, b: nat)
    requires b >= 1
    ensures a <= a * b
  {
  }

  /** One more digit: N and es take it, or not. */
  lemma OneDigit(s: Saved, i: nat)
    requires i <= 30 && |ME.Used(s.inUse)| == 1 && s.mtf == Digits(i)
    ensures Received(RUNA, s) == if i < 30 then GetMtf(s.(mtf := Digits(i + 1))) else Stray
  {
    hide ME.Used, GetMtf;
    BigPowers(i);
  }

  lemma {:induction false} DigitsStray(s: Saved, i: nat, rest: Bits)
    requires Prepared(s, LongRunBlock()) && i <= 30
    ensures var k := LongRunBlock();
            Run(GetMtf(After(s, i, Digits(i))), DataBits(k.syms, k.selector, k.len, i) + rest).0.Stray?
    decreases 31 - i
  {
    hide Run, GetMtf, Received, SymbolBits, Pow2, ME.Used, WellFormed, Digits;
    var k := LongRunBlock();
    LongRunFormed();
    OnlyZero();
    var tail := DataBits(k.syms, k.selector, k.len, i + 1) + rest;
    assert DataBits(k.syms, k.selector, k.len, i) + rest == SymbolBits(k.syms, k.selector, k.len, i) + tail;
    ReadSymbol(s, k, i, Digits(i), tail);
    OneDigit(After(s, i + 1, Digits(i)), i);
    if i < 30 {
      DigitsStray(s, i + 1, rest);
    } else {
      RunStops(Stray, tail);
    }
  }

  /** The thirty-first digit of a run takes N past Int32, whatever follows. */
  lemma TooLongRun(s: Saved, rest: Bits)
    requires s.blockSize100k >= 1
    ensures !Tame(Running(BlkHdr(1), s), BlockBits(LongRunBlock()) + rest)
  {
    hide Run, Tame, FreeRun, GetMtf, DescriptionBits, DataBits, WellFormed, ME.Used;
    var k := LongRunBlock();
    LongRunFormed();
    var d := DataBits(k.syms, k.selector, k.len, 0);
    assert BlockBits(k) + rest == DescriptionBits(k) + (d + rest);
    ReadDescription(s, k, d + rest);
    var s1 := Described(s, k);
    StartSymbols(s1, k);
    assert Digits(0) == Start(256);
    DigitsStray(s1, 0, rest);
    StraysExactly(Running(BlkHdr(1), s), BlockBits(k) + rest);
  }

  /** A run that es and N can take, and unzftab cannot: two bytes are counted, and 2^31 - 2 are to come. */
  lemma TooLongForTally(s: Saved)
    requires s.inUse == JustZero() && s.mtf == Decoder([0, 0], Initial(256), 0x7fff_fffe, 0x4000_0000)
    ensures SymbolStrays(2, s)
  {
    hide ME.Used;
    OnlyZero();
    var column := Unmapped([0], [0, 0]);
    assert column == [0, 0] && column[..1] == [0] && column[..1][..0] == [];
    assert Count<int>(column, 0) == 2;
  }
}
