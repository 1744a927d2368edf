/**
  The bit format of one compressed block: what BZ2_compressBlock and sendMTFValues
  (dep/bzip2/compress.c, lines 461-594 and 628-656) write, and that the decoding machine reads
  every piece of it back, whatever bits follow.
*/
module BlockFormat {
  import opened Common
  import opened BitIO
  import opened HuffmanTree
  import CC = CanonicalCode
  import opened Mtf
  import MtfLaws
  import ME = MtfEncoder
  import opened Decompress

  /** What is transmitted for a block. */
  datatype Block = Block(
    crc: nat,
    origPtr: nat,
    inUse: seq<bool>,
    nGroups: nat,
    selector: seq<int>,     // the coding table of each group of fifty symbols
    len: seq<seq<int>>,     // the code lengths of each coding table
    syms: seq<int>)         // move-to-front values, run digits and the end mark

  ghost predicate Selectors(sel: seq<int>, nGroups: nat) {
    2 <= nGroups <= 6 && 1 <= |sel| <= MAX_SELECTORS && forall i :: 0 <= i < |sel| ==> 0 <= sel[i] < nGroups
  }

  /** Code lengths that satisfy Kraft's inequality. */
  ghost predicate Decodable(len: seq<int>, alphaSize: nat) {
    |len| == alphaSize <= 258 && CC.Lengths(len) && Kraft(len, CC.LONGEST) <= Pow2(CC.LONGEST)
  }

  /** Tables as the compressor makes them: no code longer than 17 bits. */
  ghost predicate Short(len: seq<seq<int>>) {
    forall t, i :: 0 <= t < |len| && 0 <= i < |len[t]| ==> len[t][i] <= 17
  }

  ghost predicate WellFormed(k: Block) {
    var n := |ME.Used(k.inUse)|;
    && k.crc < Pow2(32) && k.origPtr < Pow2(24) && |k.inUse| == 256 && n > 0
    && Selectors(k.selector, k.nGroups)
    && |k.len| == k.nGroups && (forall t :: 0 <= t < |k.len| ==> Decodable(k.len[t], n + 2))
    && |k.syms| > 0 && |k.selector| == (|k.syms| + 49) / 50
    && k.syms[|k.syms| - 1] == n + 1 && SymbolsFit(k.syms[..|k.syms| - 1], n)
  }

  // ----- reading bits -----

  lemma RunBits(at: Label, s: Saved, b: Bits, rest: Bits)
    requires |b| == Need(at)
    ensures Run(Running(at, s), b + rest) == Run(Step(at, s, ValueOf(b)), rest)
  {
    assert (b + rest)[..Need(at)] == b && (b + rest)[Need(at)..] == rest;
  }

  // ----- block header -----

  function MagicBits(k: nat): Bits
    decreases 7 - k
  {
    if k > 6 then [] else BitsOf(8, BlockByte(k)) + MagicBits(k + 1)
  }

  function HeaderBits(crc: nat, origPtr: nat): Bits {
    MagicBits(1) + BitsOf(32, crc) + [false] + BitsOf(24, origPtr)
  }

  lemma MagicStep(s: Saved, k: nat)
    requires 1 <= k <= 6
    ensures Step(BlkHdr(k), s, BlockByte(k)) ==
            if k < 6 then Running(BlkHdr(k + 1), s) else Running(BCrc(1), s.(storedCRC := 0))
  {
  }

  lemma {:induction false} ReadMagic(s: Saved, k: nat, rest: Bits)
    requires 1 <= k <= 6
    ensures Run(Running(BlkHdr(k), s), MagicBits(k) + rest) == Run(Running(BCrc(1), s.(storedCRC := 0)), rest)
    decreases 7 - k
  {
    hide Run, Step, BitsOf, BlockByte;
    assert MagicBits(k) + rest == BitsOf(8, BlockByte(k)) + (MagicBits(k + 1) + rest);
    Pow2Eight();
    MagicStep(s, k);
    RunField(BlkHdr(k), s, BlockByte(k), MagicBits(k + 1) + rest);
    if k < 6 {
      ReadMagic(s, k + 1, rest);
    } else {
      assert MagicBits(k + 1) + rest == rest;
    }
  }

  /** A number sent high byte first is assembled byte by byte. */
  lemma NextByte(w: Bits, k: nat)
    requires 8 * k + 8 <= |w|
    ensures ValueOf(w[..8 * k + 8]) == ValueOf(w[..8 * k]) * 256 + ValueOf(w[8 * k..8 * k + 8])
  {
    assert w[..8 * k + 8] == w[..8 * k] + w[8 * k..8 * k + 8];
    ValueConcat(w[..8 * k], w[8 * k..8 * k + 8]);
    Pow2Eight();
  }

  lemma {:induction false} ReadCrc(s: Saved, w: Bits, k: nat, rest: Bits)
    requires |w| == 32 && k < 4 && s.storedCRC == ValueOf(w[..8 * k])
    ensures Run(Running(BCrc(k + 1), s), w[8 * k..] + rest) ==
            Run(Running(RandBit, s.(storedCRC := ValueOf(w))), rest)
    decreases 4 - k
  {
    hide ValueOf, Run;
    assert w[8 * k..] + rest == w[8 * k..8 * k + 8] + (w[8 * k + 8..] + rest);
    RunBits(BCrc(k + 1), s, w[8 * k..8 * k + 8], w[8 * k + 8..] + rest);
    NextByte(w, k);
    var s' := s.(storedCRC := ValueOf(w[..8 * k + 8]));
    if k < 3 {
      ReadCrc(s', w, k + 1, rest);
    } else {
      assert w[..32] == w && w[32..] + rest == rest;
    }
  }

  lemma {:induction false} ReadOrigPtr(s: Saved, w: Bits, k: nat, rest: Bits)
    requires |w| == 24 && k < 3 && s.origPtr == ValueOf(w[..8 * k])
    requires ValueOf(w) <= 10 + 100000 * s.blockSize100k
    ensures Run(Running(OrigPtr(k + 1), s), w[8 * k..] + rest) ==
            Run(Running(Mapping1(0), s.(origPtr := ValueOf(w), inUse16 := [], inUse := Zeros(256))), rest)
    decreases 3 - k
  {
    hide ValueOf, Run;
    assert w[8 * k..] + rest == w[8 * k..8 * k + 8] + (w[8 * k + 8..] + rest);
    RunBits(OrigPtr(k + 1), s, w[8 * k..8 * k + 8], w[8 * k + 8..] + rest);
    NextByte(w, k);
    var s' := s.(origPtr := ValueOf(w[..8 * k + 8]));
    if k < 2 {
      ReadOrigPtr(s', w, k + 1, rest);
    } else {
      assert w[..24] == w && w[24..] + rest == rest;
    }
  }

  lemma ReadHeader(s: Saved, crc: nat, origPtr: nat, rest: Bits)
    requires crc < Pow2(32) && origPtr < Pow2(24) && origPtr <= 10 + 100000 * s.blockSize100k
    ensures Run(Running(BlkHdr(1), s), HeaderBits(crc, origPtr) + rest) ==
            Run(Running(Mapping1(0), s.(storedCRC := crc, blockRandomised := false, origPtr := origPtr, inUse16 := [], inUse := Zeros(256))), rest)
  {
    hide Pow2, ValueOf, BitsOf, MagicBits, Run;
    var c, o := BitsOf(32, crc), BitsOf(24, origPtr);
    ValueOfBits(32, crc);
    ValueOfBits(24, origPtr);
    assert HeaderBits(crc, origPtr) + rest == MagicBits(1) + (c + ([false] + (o + rest)));
    ReadMagic(s, 1, c + ([false] + (o + rest)));
    var s1 := s.(storedCRC := 0);
    assert c[8 * 0..] == c && o[8 * 0..] == o;
    EmptyValue(c);
    EmptyValue(o);
    ReadCrc(s1, c, 0, [false] + (o + rest));
    var s2 := s1.(storedCRC := crc);
    RunBit(RandBit, s2, false, o + rest);
    ReadOrigPtr(s2.(blockRandomised := false, origPtr := 0), o, 0, rest);
  }

  lemma EmptyValue(w: Bits)
    ensures ValueOf(w[..8 * 0]) == 0
  {
  }

  // ----- mapping table -----

  function AnyOf(u: seq<bool>): (r: bool)
    ensures r <==> exists i :: 0 <= i < |u| && u[i]
  {
    if u == [] then false else AnyOf(u[..|u| - 1]) || u[|u| - 1]
  }

  /** inUse16: which groups of sixteen have bytes in use. */
  function Groups(u: seq<bool>): (g: Bits)
    requires |u| == 256
    ensures |g| == 16 && forall i :: 0 <= i < 16 ==> g[i] == AnyOf(u[16 * i..16 * i + 16])
  {
    seq(16, (i: int) requires 0 <= i < 16 => AnyOf(u[16 * i..16 * i + 16]))
  }

  /** The bits of the bytes in the groups in use, from group i. */
  function MemberBits(u: seq<bool>, i: nat): Bits
    requires |u| == 256
    decreases 16 - i
  {
    if i >= 16 then []
    else (if Groups(u)[i] then u[16 * i..16 * i + 16] else []) + MemberBits(u, i + 1)
  }

  function MappingBits(u: seq<bool>): Bits
    requires |u| == 256
  {
    Groups(u) + MemberBits(u, 0)
  }

  /** inUse while it is being received: the first k entries are known. */
  function Known(u: seq<bool>, k: nat): (r: seq<bool>)
    requires k <= |u|
    ensures |r| == |u|
  {
    u[..k] + Zeros(|u| - k)
  }

  lemma {:induction false} ReadGroups(s: Saved, g: Bits, i: nat, rest: Bits)
    requires |g| == 16 && i < 16 && s.inUse16 == g[..i]
    ensures Run(Running(Mapping1(i), s), g[i..] + rest) == Run(NextGroup(s.(inUse16 := g), 0), rest)
    decreases 16 - i
  {
    assert g[i..] + rest == [g[i]] + (g[i + 1..] + rest);
    RunBit(Mapping1(i), s, g[i], g[i + 1..] + rest);
    assert g[..i] + [g[i]] == g[..i + 1];
    if i < 15 {
      ReadGroups(s.(inUse16 := g[..i + 1]), g, i + 1, rest);
    } else {
      assert g[..16] == g && g[16..] + rest == rest;
    }
  }

  lemma {:induction false} ReadMembers(s: Saved, u: seq<bool>, i: nat, j: nat, rest: Bits)
    requires |u| == 256 && i < 16 && j < 16 && |s.inUse16| == 16 && s.inUse == Known(u, 16 * i + j)
    ensures Run(Running(Mapping2(i, j), s), u[16 * i + j..16 * i + 16] + rest) ==
            Run(NextGroup(s.(inUse := Known(u, 16 * i + 16)), i + 1), rest)
    decreases 16 - j
  {
    hide NextGroup, Run, Step, Known, Zeros;
    var k := 16 * i + j;
    var tail := u[k + 1..16 * i + 16] + rest;
    assert u[k..16 * i + 16] + rest == [u[k]] + tail;
    RunBit(Mapping2(i, j), s, u[k], tail);
    MemberStep(s, u, i, j, k);
    if j < 15 {
      ReadMembers(s.(inUse := Known(u, k + 1)), u, i, j + 1, rest);
    } else {
      assert tail == rest;
    }
  }

  lemma MemberStep(s: Saved, u: seq<bool>, i: nat, j: nat, k: nat)
    requires |u| == 256 && i < 16 && j < 16 && |s.inUse16| == 16 && k == 16 * i + j && s.inUse == Known(u, k)
    ensures var s' := s.(inUse := Known(u, k + 1));
            Step(Mapping2(i, j), s, if u[k] then 1 else 0) ==
            if j < 15 then Running(Mapping2(i, j + 1), s') else NextGroup(s', i + 1)
  {
    hide NextGroup;
    assert Known(u, k + 1) == if u[k] then Known(u, k)[k := true] else Known(u, k);
  }

  lemma {:induction false} ReadMapping(s: Saved, u: seq<bool>, i: nat, rest: Bits)
    requires |u| == 256 && i <= 16 && |ME.Used(u)| > 0
    requires s.inUse16 == Groups(u) && s.inUse == Known(u, 16 * i)
    ensures Run(NextGroup(s, i), MemberBits(u, i) + rest) == Run(Running(Selector1, s.(inUse := u)), rest)
    decreases 16 - i
  {
    hide AnyOf, Run, Step, Known, Zeros, ME.Used, Groups;
    if i == 16 {
      AllKnown(u);
      assert MemberBits(u, 16) + rest == rest;
    } else if Groups(u)[i] {
      var tail := MemberBits(u, i + 1) + rest;
      assert MemberBits(u, i) + rest == u[16 * i..16 * i + 16] + tail;
      ReadMembers(s, u, i, 0, tail);
      ReadMapping(s.(inUse := Known(u, 16 * i + 16)), u, i + 1, rest);
    } else {
      SkippedGroup(u, i);
      assert MemberBits(u, i) == MemberBits(u, i + 1);
      ReadMapping(s, u, i + 1, rest);
    }
  }

  lemma AllKnown(u: seq<bool>)
    requires |u| == 256
    ensures Known(u, 16 * 16) == u
  {
  }

  lemma SkippedGroup(u: seq<bool>, i: nat)
    requires |u| == 256 && i < 16 && !Groups(u)[i]
    ensures Known(u, 16 * i) == Known(u, 16 * i + 16)
  {
    var g := u[16 * i..16 * i + 16];
    forall k | 16 * i <= k < 16 * i + 16 ensures !u[k] {
      assert g[k - 16 * i] == u[k];
    }
  }

  // ----- selectors -----

  function Unary(j: nat): Bits {
    if j == 0 then [false] else [true] + Unary(j - 1)
  }

  function UnaryAll(m: seq<int>): Bits {
    if m == [] then [] else (if m[0] >= 0 then Unary(m[0]) else []) + UnaryAll(m[1..])
  }

  /** The selectors' move-to-front values, from a list of the tables. */
  ghost function SelectorMtf(sel: seq<int>, pos: seq<int>): (m: seq<int>)
    ensures |m| == |sel| && forall i :: 0 <= i < |m| ==> 0 <= m[i] && (m[i] < |pos| || m[i] == 0)
    decreases |sel|
  {
    if sel == [] then []
    else
      var j := if sel[0] in pos then Position(pos, sel[0]) else 0;
      [j] + SelectorMtf(sel[1..], if j < |pos| then ToFront(pos, j) else pos)
  }

  ghost function SelectorBits(nGroups: nat, sel: seq<int>): Bits {
    BitsOf(3, nGroups) + BitsOf(15, |sel|) + UnaryAll(SelectorMtf(sel, Initial(nGroups)))
  }

  /** What is sent for a selector is its place in a list that each one used moves to the front of. */
  lemma {:induction false} SelectorPlaces(sel: seq<int>, pos: seq<int>)
    requires forall i :: 0 <= i < |sel| ==> 0 <= sel[i] < |pos|
    requires ListOf(pos, |pos|)
    ensures SelectorMtf(sel, pos) == MtfLaws.Places(sel, pos)
    decreases |sel|
  {
    hide ToFront, ListOf, Position;
    if sel != [] {
      ListHas(pos, |pos|, sel[0]);
      var j := Position(pos, sel[0]);
      ToFrontListOf(pos, j, |pos|);
      MtfLaws.PlacesFirst(sel, pos, |pos|);
      SelectorPlaces(sel[1..], ToFront(pos, j));
    }
  }

  lemma {:induction false} SelectorsUndone(sel: seq<int>, pos: seq<int>)
    requires forall i :: 0 <= i < |sel| ==> 0 <= sel[i] < |pos|
    requires ListOf(pos, |pos|)
    ensures UndoSelectors(SelectorMtf(sel, pos), pos) == sel
    decreases |sel|
  {
    hide ToFront, ListOf, Position;
    if sel != [] {
      ListHas(pos, |pos|, sel[0]);
      var j := Position(pos, sel[0]);
      ToFrontListOf(pos, j, |pos|);
      SelectorsUndone(sel[1..], ToFront(pos, j));
      assert SelectorMtf(sel, pos)[1..] == SelectorMtf(sel[1..], ToFront(pos, j));
    }
  }

  lemma {:induction false} ReadUnary(s: Saved, j: nat, m: nat, rest: Bits)
    requires j + m == 0 || j + m < s.nGroups
    ensures Run(Running(Selector3(j), s), Unary(m) + rest) == Run(Step(Selector3(j + m), s, 0), rest)
    decreases m
  {
    hide Run, UndoSelectors;
    if m == 0 {
      RunBit(Selector3(j), s, false, rest);
    } else {
      assert Unary(m) + rest == [true] + (Unary(m - 1) + rest);
      RunBit(Selector3(j), s, true, Unary(m - 1) + rest);
      ReadUnary(s, j + 1, m - 1, rest);
    }
  }

  lemma {:induction false} ReadUnaries(s: Saved, m: seq<int>, i: nat, rest: Bits)
    requires i < |m| == s.nSelectors <= MAX_SELECTORS && s.selectorMtf == m[..i] && s.nGroups >= 2
    requires forall k :: 0 <= k < |m| ==> 0 <= m[k] < s.nGroups
    ensures Run(Running(Selector3(0), s), UnaryAll(m[i..]) + rest) ==
            Run(Running(Coding1(0), s.(selectorMtf := m, selector := UndoSelectors(m, Initial(s.nGroups)), len := [])), rest)
    decreases |m| - i
  {
    hide UndoSelectors, Run, Unary;
    assert m[i..][1..] == m[i + 1..];
    var tail := UnaryAll(m[i + 1..]) + rest;
    assert UnaryAll(m[i..]) + rest == Unary(m[i]) + tail;
    ReadUnary(s, 0, m[i], tail);
    assert m[..i] + [m[i]] == m[..i + 1];
    var s' := s.(selectorMtf := m[..i + 1]);
    if i + 1 < |m| {
      ReadUnaries(s', m, i + 1, rest);
    } else {
      assert m[..i + 1] == m && tail == rest;
    }
  }

  lemma ReadSelectors(s: Saved, nGroups: nat, sel: seq<int>, rest: Bits)
    requires Selectors(sel, nGroups)
    ensures Run(Running(Selector1, s), SelectorBits(nGroups, sel) + rest) ==
            Run(Running(Coding1(0), s.(nGroups := nGroups, nSelectors := |sel|,
              selectorMtf := SelectorMtf(sel, Initial(nGroups)), selector := sel, len := [])), rest)
  {
    hide UndoSelectors, SelectorMtf, Run, UnaryAll, BitsOf;
    var m := SelectorMtf(sel, Initial(nGroups));
    SelectorsUndone(sel, Initial(nGroups));
    var u := UnaryAll(m);
    assert m[0..] == m && m[..0] == [];
    assert SelectorBits(nGroups, sel) + rest == BitsOf(3, nGroups) + (BitsOf(15, |sel|) + (u + rest));
    FieldSizes();
    RunField(Selector1, s, nGroups, BitsOf(15, |sel|) + (u + rest));
    RunField(Selector2, s.(nGroups := nGroups), |sel|, u + rest);
    ReadUnaries(s.(nGroups := nGroups, nSelectors := |sel|, selectorMtf := []), m, 0, rest);
  }

  lemma FieldSizes()
    ensures Pow2(3) == 8 && Pow2(5) == 32 && Pow2(15) == 32768
  {
    assert Pow2(10) == 1024;
  }
}
