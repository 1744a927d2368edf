/**
  Coding tables and symbol codes as bits, and the round trip of a whole block through the
  decoding machine (dep/bzip2/compress.c, lines 528-594; dep/bzip2/decompress.c, lines 311-482).
*/
module BlockRoundTrip {
  import opened Common
  import opened BitIO
  import opened Counting
  import HT = HuffmanTree
  import CC = CanonicalCode
  import opened Mtf
  import ME = MtfEncoder
  import opened Decompress
  import opened DecodeTables
  import opened BlockFormat

  // ----- coding tables -----

  /** From one code length to the next: 10 is one more, 11 one less, 0 the end. */
  function DeltaBits(curr: int, goal: int): Bits
    decreases if curr < goal then goal - curr else curr - goal
  {
    if curr < goal then [true, false] + DeltaBits(curr + 1, goal)
    else if curr > goal then [true, true] + DeltaBits(curr - 1, goal)
    else [false]
  }

  function LengthBits(curr: int, len: seq<int>): Bits
    decreases |len|
  {
    if len == [] then [] else DeltaBits(curr, len[0]) + LengthBits(len[0], len[1..])
  }

  function TableBits(len: seq<int>): Bits {
    if len == [] || len[0] < 0 then [] else BitsOf(5, len[0]) + LengthBits(len[0], len)
  }

  function AllTableBits(len: seq<seq<int>>): Bits {
    if len == [] then [] else TableBits(len[0]) + AllTableBits(len[1..])
  }

  lemma {:induction false} ReadDelta(s: Saved, lens: seq<int>, curr: int, goal: int, rest: Bits)
    requires 1 <= curr <= CC.LONGEST && 1 <= goal <= CC.LONGEST
    ensures Run(CodingCheck(lens, curr, s), DeltaBits(curr, goal) + rest) ==
            Run(LengthRead(lens + [goal], goal, s), rest)
    decreases if curr < goal then goal - curr else curr - goal
  {
    hide Run, LengthRead;
    if curr == goal {
      RunBit(Coding2(lens, curr), s, false, rest);
    } else {
      var up := curr < goal;
      var next := if up then curr + 1 else curr - 1;
      var tail := DeltaBits(next, goal) + rest;
      assert DeltaBits(curr, goal) + rest == [true] + ([!up] + tail);
      RunBit(Coding2(lens, curr), s, true, [!up] + tail);
      RunBit(Coding3(lens, curr), s, !up, tail);
      ReadDelta(s, lens, next, goal, rest);
    }
  }

  lemma {:induction false} ReadLengths(s: Saved, len: seq<int>, i: nat, curr: int, rest: Bits)
    requires CC.Lengths(len) && i < |len| == |ME.Used(s.inUse)| + 2 && 1 <= curr <= CC.LONGEST
    ensures Run(CodingCheck(len[..i], curr, s), LengthBits(curr, len[i..]) + rest) ==
            Run(LengthRead(len, len[|len| - 1], s), rest)
    decreases |len| - i
  {
    hide Run, CodingCheck, GetMtf, TablesOf, DeltaBits, ME.Used;
    assert len[i..][1..] == len[i + 1..];
    var tail := LengthBits(len[i], len[i + 1..]) + rest;
    assert LengthBits(curr, len[i..]) + rest == DeltaBits(curr, len[i]) + tail;
    ReadDelta(s, len[..i], curr, len[i], tail);
    assert len[..i] + [len[i]] == len[..i + 1];
    if i + 1 < |len| {
      ReadLengths(s, len, i + 1, len[i], rest);
    } else {
      assert len[..i + 1] == len && tail == rest;
    }
  }

  lemma ReadTable(s: Saved, t: int, len: seq<int>, rest: Bits)
    requires CC.Lengths(len) && |len| == |ME.Used(s.inUse)| + 2
    ensures Run(Running(Coding1(t), s), TableBits(len) + rest) == Run(LengthRead(len, len[|len| - 1], s), rest)
  {
    hide Run, CodingCheck, LengthRead, ME.Used, LengthBits, BitsOf;
    assert TableBits(len) + rest == BitsOf(5, len[0]) + (LengthBits(len[0], len) + rest);
    FieldSizes();
    RunField(Coding1(t), s, len[0], LengthBits(len[0], len) + rest);
    assert len[..0] == [] && len[0..] == len;
    ReadLengths(s, len, 0, len[0], rest);
  }

  lemma {:induction false} ReadTables(s: Saved, len: seq<seq<int>>, t: nat, rest: Bits)
    requires t < |len| == s.nGroups && s.len == len[..t]
    requires forall k :: 0 <= k < |len| ==> CC.Lengths(len[k]) && |len[k]| == |ME.Used(s.inUse)| + 2
    ensures Run(Running(Coding1(t), s), AllTableBits(len[t..]) + rest) == Run(GetMtf(TablesRead(s.(len := len))), rest)
    decreases |len| - t
  {
    hide Run, CodingCheck, GetMtf, TablesRead, TableBits, ME.Used;
    assert len[t..][1..] == len[t + 1..];
    var tail := AllTableBits(len[t + 1..]) + rest;
    assert AllTableBits(len[t..]) + rest == TableBits(len[t]) + tail;
    ReadTable(s, t, len[t], tail);
    assert len[..t] + [len[t]] == len[..t + 1];
    if t + 1 < |len| {
      ReadTables(s.(len := len[..t + 1]), len, t + 1, rest);
    } else {
      assert len[..t + 1] == len && tail == rest;
    }
  }

  // ----- one code -----

  /** The machine reads a code as the loop over its table does. */
  lemma {:induction false} RunGetCode(s: Saved, zn: int, zvec: int, bits: Bits, sym: int, rest: Bits)
    requires GetCode(CurrentTable(s), zn, zvec, bits) == (Sym(sym), rest)
    ensures Run(Checked(zn, zvec, s), bits) == Run(Received(sym, s), rest)
    decreases |bits|
  {
    hide Run, Symbol, SymbolStrays, CurrentTable, Lookup;
    if Lookup(CurrentTable(s), zn, zvec).Longer? {
      assert bits == [bits[0]] + bits[1..];
      RunBit(MtfMore(zn + 1, zvec), s, bits[0], bits[1..]);
      RunGetCode(s, zn + 1, 2 * zvec + (if bits[0] then 1 else 0), bits[1..], sym, rest);
    }
  }

  /** The code of a symbol is read as that symbol, exactly its bits consumed. */
  lemma ReadCode(s: Saved, len: seq<int>, sym: nat, rest: Bits)
    requires Decodable(len, |len|) && sym < |len| && CurrentLengths(s) == len
    ensures Run(Running(MtfFirst(MinLen(len)), s), CodeBits(len, sym) + rest) == Run(Received(sym, s), rest)
  {
    hide Run, Received, CodeStrays, MtfCheck, MaxLen, MinLen, ValueOf, CC.Code, Slot, CC.FirstCode, PermOf, HT.Kraft, Pow2, GetCode, CodeBits;
    TablesOfLengths(len);
    LengthRange(len);
    CodeRead(TablesOf(len), len, MaxLen(len), sym, rest);
    var w, n := CodeBits(len, sym), MinLen(len);
    assert w + rest == w[..n] + (w[n..] + rest);
    RunBits(MtfFirst(n), s, w[..n], w[n..] + rest);
    RunGetCode(s, n, ValueOf(w[..n]), w[n..] + rest, sym, rest);
  }

  // ----- the symbols -----

  /** The codes of the symbols from the k-th on; a group of fifty shares a coding table. */
  ghost function DataBits(syms: seq<int>, sel: seq<int>, len: seq<seq<int>>, k: nat): Bits
    decreases |syms| - k
  {
    if k >= |syms| then []
    else SymbolBits(syms, sel, len, k) + DataBits(syms, sel, len, k + 1)
  }

  ghost function SymbolBits(syms: seq<int>, sel: seq<int>, len: seq<seq<int>>, k: nat): Bits
    requires k < |syms|
  {
    if Codable(syms, sel, len, k) then CodeBits(len[sel[k / G_SIZE]], syms[k]) else []
  }

  ghost predicate Codable(syms: seq<int>, sel: seq<int>, len: seq<seq<int>>, k: nat)
    requires k < |syms|
  {
    && k / G_SIZE < |sel| && 0 <= sel[k / G_SIZE] < |len|
    && 0 <= syms[k] < |len[sel[k / G_SIZE]]| && len[sel[k / G_SIZE]][syms[k]] >= 0
  }

  /** The saved state after k symbols: the group counters, and the symbols decoded into d. */
  function After(s: Saved, k: nat, d: Decoder): Saved {
    s.(groupNo := if k == 0 then -1 else (k - 1) / G_SIZE,
       groupPos := if k == 0 then 0 else G_SIZE - 1 - (k - 1) % G_SIZE, mtf := d)
  }

  /** GET_MTF_VAL moves to the next coding table exactly when a group of fifty is complete. */
  lemma NextSymbol(s: Saved, k: nat, d: Decoder)
    requires k / G_SIZE < s.nSelectors
    ensures GetMtf(After(s, k, d)) == Running(MtfFirst(MinLen(CurrentLengths(After(s, k + 1, d)))), After(s, k + 1, d))
    ensures After(s, k + 1, d).groupNo == k / G_SIZE
  {
    hide CurrentLengths, MinLen;
    var n := After(s, k, d);
    if k > 0 {
      assert n.groupPos == 0 <==> (k - 1) % 50 == 49;
      assert (k - 1) % 50 == 49 ==> k / 50 == (k - 1) / 50 + 1 && k % 50 == 0;
      assert (k - 1) % 50 != 49 ==> k / 50 == (k - 1) / 50 && k % 50 == (k - 1) % 50 + 1;
    }
  }

  /** How much of the column a decoder has accounted for. */
  function Length(d: Decoder): nat {
    |d.col| + d.run
  }

  lemma {:induction false} LengthGrows(d: Decoder, syms: seq<int>)
    requires |d.list| > 0 && SymbolsFit(syms, |d.list|)
    ensures Length(DecodeFrom(d, syms)) >= Length(d)
    decreases |syms|
  {
    if syms != [] { LengthGrows(Decode1(d, syms[0]), syms[1..]); }
  }

  lemma DecodeOne(d: Decoder, s: nat)
    requires 0 < |d.list| && s <= |d.list|
    ensures SymbolsFit([s], |d.list|) && DecodeFrom(d, [s]) == Decode1(d, s)
  {
    assert DecodeFrom(d, [s]) == DecodeFrom(Decode1(d, s), []);
  }

  /** The decoder after k of the symbols, and after one more. */
  lemma DecodeNext(d: Decoder, syms: seq<int>, k: nat)
    requires |d.list| > 0 && SymbolsFit(syms, |d.list|) && k < |syms|
    ensures SymbolsFit(syms[..k], |d.list|) && SymbolsFit(syms[..k + 1], |d.list|)
    ensures DecodeFrom(d, syms[..k + 1]) == Decode1(DecodeFrom(d, syms[..k]), syms[k])
    ensures Length(DecodeFrom(d, syms[..k + 1])) <= Length(DecodeFrom(d, syms))
  {
    hide DecodeFrom, Decode1;
    assert syms[..k + 1] == syms[..k] + [syms[k]];
    DecodeConcat(d, syms[..k], [syms[k]]);
    DecodeOne(DecodeFrom(d, syms[..k]), syms[k]);
    assert syms == syms[..k + 1] + syms[k + 1..];
    DecodeConcat(d, syms[..k + 1], syms[k + 1..]);
    LengthGrows(DecodeFrom(d, syms[..k + 1]), syms[k + 1..]);
  }

  /** The weight of the next run digit is one more than what the run has at least. */
  lemma {:induction false} WeightSmall(d: Decoder, syms: seq<int>)
    requires |d.list| > 0 && SymbolsFit(syms, |d.list|) && d.weight <= d.run + 1
    ensures DecodeFrom(d, syms).weight <= DecodeFrom(d, syms).run + 1
    decreases |syms|
  {
    if syms != [] { WeightSmall(Decode1(d, syms[0]), syms[1..]); }
  }

  /** Within a block of at most 900000 bytes no symbol leads astray. */
  lemma SymbolTame(s: Saved, sym: nat)
    requires |s.mtf.list| > 0 && sym <= |s.mtf.list| + 1 && s.mtf.weight <= s.mtf.run + 1
    requires Length(s.mtf) <= 900000
    requires sym <= |s.mtf.list| ==> Length(Decode1(s.mtf, sym)) <= 900001
    ensures !SymbolStrays(sym, s)
  {
    hide ME.Used, Unmapped;
    TallySmall(s);
  }

  lemma TallySmall(s: Saved)
    ensures Tally(s) <= |s.mtf.col|
  {
    hide ME.Used;
    if |s.mtf.list| > 0 && 0 <= s.mtf.list[0] < |ME.Used(s.inUse)| {
      var column := Unmapped(ME.Used(s.inUse), s.mtf.col);
      CountAtMost(column, ME.Used(s.inUse)[s.mtf.list[0]]);
    }
  }

  /** All but the symbols of a block have been received. */
  ghost predicate Prepared(s: Saved, k: Block) {
    && s.inUse == k.inUse && s.nSelectors == |k.selector| && s.selector == k.selector
    && s.len == k.len && s.origPtr == k.origPtr
  }

  /** Symbols that only refer to entries of the decoder's list, but for the end mark. */
  ghost predicate Sound(k: Block) {
    |k.syms| > 0 && SymbolsFit(k.syms[..|k.syms| - 1], 256)
  }

  /** The codes a block's symbols stand for. */
  ghost function ColumnOf(k: Block): (d: Decoder)
    requires Sound(k)
  {
    Flush(DecodeFrom(Start(256), k.syms[..|k.syms| - 1]))
  }

  /** The state at the end mark. */
  ghost function Finished(s: Saved, k: Block): State
    requires Sound(k)
  {
    Output(After(s, |k.syms|, ColumnOf(k)), Unmapped(ME.Used(k.inUse), ColumnOf(k).col))
  }

  /** The block is within the size announced in the stream header. */
  ghost predicate Fits(k: Block, blockSize100k: int) {
    && WellFormed(k) && Sound(k)
    && k.origPtr < |ColumnOf(k).col| <= Min(100000 * blockSize100k, 900000)
  }

  lemma ReadSymbol(s: Saved, k: Block, i: nat, d: Decoder, rest: Bits)
    requires WellFormed(k) && Prepared(s, k) && i < |k.syms|
    ensures Run(GetMtf(After(s, i, d)), SymbolBits(k.syms, k.selector, k.len, i) + rest) ==
            Run(Received(k.syms[i], After(s, i + 1, d)), rest)
  {
    hide Run, GetMtf, Received, MinLen, CodeBits, HT.Kraft, Pow2, ME.Used;
    var g := i / G_SIZE;
    GroupExists(i, |k.syms|);
    NextSymbol(s, i, d);
    var len := k.len[k.selector[g]];
    assert Decodable(len, |ME.Used(k.inUse)| + 2);
    SymbolInRange(k, i);
    assert SymbolBits(k.syms, k.selector, k.len, i) == CodeBits(len, k.syms[i]);
    ReadCode(After(s, i + 1, d), len, k.syms[i], rest);
  }

  lemma GroupExists(i: nat, n: nat)
    requires i < n
    ensures i / G_SIZE < (n + 49) / 50
  {
  }

  lemma SymbolInRange(k: Block, i: nat)
    requires WellFormed(k) && i < |k.syms|
    ensures 0 <= k.syms[i] <= |ME.Used(k.inUse)| + 1
  {
    if i < |k.syms| - 1 { assert k.syms[..|k.syms| - 1][i] == k.syms[i]; }
  }

  /** A symbol before the end mark: the machine does what the decoder of the column does. */
  lemma MiddleSymbol(s: Saved, k: Block, i: nat, d: Decoder)
    requires Fits(k, s.blockSize100k) && Prepared(s, k) && i + 1 < |k.syms|
    requires SymbolsFit(k.syms[..i], 256) && d == DecodeFrom(Start(256), k.syms[..i])
    ensures SymbolsFit(k.syms[..i + 1], 256)
    ensures Received(k.syms[i], After(s, i + 1, d)) == GetMtf(After(s, i + 1, DecodeFrom(Start(256), k.syms[..i + 1])))
  {
    hide Run, GetMtf, DecodeFrom, ME.Used, SymbolStrays;
    var body := k.syms[..|k.syms| - 1];
    assert body[..i] == k.syms[..i] && body[..i + 1] == k.syms[..i + 1] && body[i] == k.syms[i];
    DecodeNext(Start(256), body, i);
    WeightSmall(Start(256), body[..i]);
    SymbolTame(After(s, i + 1, d), k.syms[i]);
  }

  /** The end mark: the last run is flushed and the block handed on. */
  lemma LastSymbol(s: Saved, k: Block, d: Decoder)
    requires Fits(k, s.blockSize100k) && Prepared(s, k)
    requires d == DecodeFrom(Start(256), k.syms[..|k.syms| - 1])
    ensures Received(k.syms[|k.syms| - 1], After(s, |k.syms|, d)) ==
            Finished(s, k)
  {
    hide Run, GetMtf, DecodeFrom, ME.Used, Unmapped, SymbolStrays;
    assert Length(d) == |ColumnOf(k).col|;
    WeightSmall(Start(256), k.syms[..|k.syms| - 1]);
    SymbolTame(After(s, |k.syms|, d), k.syms[|k.syms| - 1]);
  }

  lemma {:induction false} ReadSymbols(s: Saved, k: Block, i: nat, d: Decoder, rest: Bits)
    requires Fits(k, s.blockSize100k) && Prepared(s, k) && i < |k.syms|
    requires SymbolsFit(k.syms[..i], 256) && d == DecodeFrom(Start(256), k.syms[..i])
    ensures Run(GetMtf(After(s, i, d)), DataBits(k.syms, k.selector, k.len, i) + rest) ==
            Run(Finished(s, k), rest)
    decreases |k.syms| - i
  {
    hide Run, GetMtf, After, Decode1, DecodeFrom, SymbolBits, Prepared, Flush, Length, ME.Used, WellFormed, Received, Finished;
    var tail := DataBits(k.syms, k.selector, k.len, i + 1) + rest;
    assert DataBits(k.syms, k.selector, k.len, i) + rest == SymbolBits(k.syms, k.selector, k.len, i) + tail;
    ReadSymbol(s, k, i, d, tail);
    if i + 1 < |k.syms| {
      MiddleSymbol(s, k, i, d);
      ReadSymbols(s, k, i + 1, DecodeFrom(Start(256), k.syms[..i + 1]), rest);
    } else {
      assert i == |k.syms| - 1;
      LastSymbol(s, k, d);
      assert tail == rest;
    }
  }

  // ----- the whole block -----

  /** What is written for a block before its symbols. */
  ghost function DescriptionBits(k: Block): Bits
    requires |k.inUse| == 256
  {
    HeaderBits(k.crc, k.origPtr) + MappingBits(k.inUse) + SelectorBits(k.nGroups, k.selector) + AllTableBits(k.len)
  }

  /** Everything written for one block. */
  ghost function BlockBits(k: Block): Bits
    requires |k.inUse| == 256
  {
    DescriptionBits(k) + DataBits(k.syms, k.selector, k.len, 0)
  }

  /** What the decoder has saved when the symbols begin. */
  ghost function Described(s: Saved, k: Block): Saved
    requires |k.inUse| == 256
  {
    TablesRead(s.(storedCRC := k.crc, blockRandomised := false, origPtr := k.origPtr, inUse16 := Groups(k.inUse), inUse := k.inUse,
                  nGroups := k.nGroups, nSelectors := |k.selector|,
                  selectorMtf := SelectorMtf(k.selector, Initial(k.nGroups)), selector := k.selector, len := k.len))
  }

  /** What the decoder has saved once it has read the block. */
  ghost function BlockRead(s: Saved, k: Block): Saved
    requires |k.inUse| == 256 && Sound(k)
  {
    After(Described(s, k), |k.syms|, ColumnOf(k))
  }

  /** Header, mapping table, selectors and code lengths are read back, and the symbols begin. */
  lemma ReadDescription(s: Saved, k: Block, rest: Bits)
    requires WellFormed(k) && k.origPtr <= 10 + 100000 * s.blockSize100k
    ensures Run(Running(BlkHdr(1), s), DescriptionBits(k) + rest) == Run(GetMtf(Described(s, k)), rest)
  {
    hide Run, ME.Used, HeaderBits, MappingBits, SelectorBits, AllTableBits, Pow2, GetMtf;
    var u := k.inUse;
    var h, m, e, t := HeaderBits(k.crc, k.origPtr), MappingBits(u), SelectorBits(k.nGroups, k.selector), AllTableBits(k.len);
    assert DescriptionBits(k) + rest == h + (m + (e + (t + rest)));
    ReadHeader(s, k.crc, k.origPtr, m + (e + (t + rest)));
    var s1 := s.(storedCRC := k.crc, blockRandomised := false, origPtr := k.origPtr, inUse16 := [], inUse := Zeros(256));
    ReadMappingBits(s1, u, e + (t + rest));
    var s2 := s1.(inUse16 := Groups(u), inUse := u);
    ReadSelectors(s2, k.nGroups, k.selector, t + rest);
    var s3 := s2.(nGroups := k.nGroups, nSelectors := |k.selector|,
                  selectorMtf := SelectorMtf(k.selector, Initial(k.nGroups)), selector := k.selector, len := []);
    assert k.len[..0] == [] && k.len[0..] == k.len;
    assert forall t :: 0 <= t < |k.len| ==> Decodable(k.len[t], |ME.Used(u)| + 2);
    ReadTables(s3, k.len, 0, rest);
    assert s3.(len := k.len) == s.(storedCRC := k.crc, blockRandomised := false, origPtr := k.origPtr, inUse16 := Groups(k.inUse), inUse := k.inUse,
                  nGroups := k.nGroups, nSelectors := |k.selector|,
                  selectorMtf := SelectorMtf(k.selector, Initial(k.nGroups)), selector := k.selector, len := k.len);
  }

  /**
    A block is read back exactly: from the block header on, the machine consumes precisely the
    block's bits, whatever follows, and hands on the column the symbols stand for.
  */
  lemma ReadBlock(s: Saved, k: Block, rest: Bits)
    requires Fits(k, s.blockSize100k)
    ensures Run(Running(BlkHdr(1), s), BlockBits(k) + rest) ==
            (Output(BlockRead(s, k), Unmapped(ME.Used(k.inUse), ColumnOf(k).col)), rest)
  {
    hide Run, ME.Used, DescriptionBits, DataBits, ColumnOf, GetMtf;
    var d := DataBits(k.syms, k.selector, k.len, 0);
    assert BlockBits(k) + rest == DescriptionBits(k) + (d + rest);
    ReadDescription(s, k, d + rest);
    var s1 := Described(s, k);
    StartSymbols(s1, k);
    ReadSymbols(s1, k, 0, Start(256), rest);
    RunStops(Output(BlockRead(s, k), Unmapped(ME.Used(k.inUse), ColumnOf(k).col)), rest);
  }

  lemma StartSymbols(s: Saved, k: Block)
    requires s.groupNo == -1 && s.groupPos == 0 && s.mtf == Start(256) && |k.syms| > 0
    ensures SymbolsFit(k.syms[..0], 256) && Start(256) == DecodeFrom(Start(256), k.syms[..0])
    ensures After(s, 0, Start(256)) == s
  {
  }

  lemma RunStops(st: State, rest: Bits)
    requires !st.Running?
    ensures Run(st, rest) == (st, rest)
  {
  }

  lemma ReadMappingBits(s: Saved, u: seq<bool>, rest: Bits)
    requires |u| == 256 && |ME.Used(u)| > 0 && s.inUse16 == [] && s.inUse == Zeros(256)
    ensures Run(Running(Mapping1(0), s), MappingBits(u) + rest) ==
            Run(Running(Selector1, s.(inUse16 := Groups(u), inUse := u)), rest)
  {
    hide Run, ME.Used, NextGroup, MemberBits, Groups;
    var g, m := Groups(u), MemberBits(u, 0);
    assert MappingBits(u) + rest == g + (m + rest) && g[..0] == [] && g[0..] == g;
    ReadGroups(s, g, 0, m + rest);
    assert Known(u, 16 * 0) == Zeros(256);
    ReadMapping(s.(inUse16 := g), u, 0, rest);
  }
}
