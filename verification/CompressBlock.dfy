/**
  dep/bzip2/compress.c: sendMTFValues as a whole (lines 461-594) and the part of
  BZ2_compressBlock that follows the sort (lines 628-656). What is written for a block is exactly
  BlockBits of a block description the decoder reads back.
*/
module CompressBlock {
  import opened Common
  import opened BitIO
  import opened Rotation
  import opened InverseBwt
  import HT = HuffmanTree
  import CC = CanonicalCode
  import opened Mtf
  import ME = MtfEncoder
  import opened Decompress
  import opened BlockFormat
  import opened BlockRoundTrip
  import opened BlockWriter
  import opened SendMtfValues
  import opened TableBands
  import opened WholeBlock

  lemma AllTablesNext(lens: seq<seq<int>>, t: nat)
    requires t < |lens|
    ensures AllTableBits(lens[t..]) == TableBits(lens[t]) + AllTableBits(lens[t + 1..])
  {
    assert lens[t..][1..] == lens[t + 1..];
  }

  lemma AllTablesEnd(lens: seq<seq<int>>)
    ensures AllTableBits(lens[|lens|..]) == []
  {
  }

  /** The rows of len hold the lengths. */
  ghost predicate Holds(len: seq<array<int>>, lens: seq<seq<int>>, alphaSize: nat)
    reads len
  {
    && |len| == |lens| && 2 <= alphaSize <= 258
    && forall t :: 0 <= t < |len| ==>
         len[t].Length == 258 && Decodable(lens[t], alphaSize) && len[t][..alphaSize] == lens[t]
  }

  method SendTables(w: BitWriter, len: seq<array<int>>, alphaSize: nat, ghost lens: seq<seq<int>>)
    requires w.Valid() && Holds(len, lens, alphaSize)
    modifies w
    ensures w.Valid() && w.Contents() == old(w.Contents()) + AllTableBits(lens)
  {
    hide HT.Kraft, Pow2, TableBits, AllTableBits;
    ghost var c := w.Contents();
    assert lens[0..] == lens;
    for t := 0 to |len|
      invariant w.Valid() && w.Contents() + AllTableBits(lens[t..]) == c + AllTableBits(lens)
    {
      AllTablesNext(lens, t);
      SendTable(w, len[t], alphaSize);
    }
    AllTablesEnd(lens);
    assert w.Contents() + [] == w.Contents();
  }

  /** What sending the data needs to know of selectors, tables and symbols. */
  ghost predicate Ready(sel: seq<int>, lens: seq<seq<int>>, syms: seq<int>, alphaSize: nat) {
    && |syms| > 0 && Selected(sel, |lens|, |syms|, |syms|)
    && (forall t :: 0 <= t < |lens| ==> Decodable(lens[t], alphaSize))
    && forall i :: 0 <= i < |syms| ==> 0 <= syms[i] < alphaSize
  }

  method SendData(w: BitWriter, mtfv: array<int>, nMTF: int, len: seq<array<int>>, code: seq<array<int>>,
                  selector: array<int>, alphaSize: nat, ghost sel: seq<int>, ghost lens: seq<seq<int>>, ghost syms: seq<int>)
    returns (selCtr: int)
    requires w.Valid() && nMTF == |syms| <= mtfv.Length && mtfv[..nMTF] == syms
    requires Holds(len, lens, alphaSize) && |code| == |lens| && Coded(code, lens, |lens|)
    requires Ready(sel, lens, syms, alphaSize) && |sel| <= selector.Length && selector[..|sel|] == sel
    modifies w
    ensures w.Valid() && w.Contents() == old(w.Contents()) + DataBits(syms, sel, lens, 0)
    ensures selCtr == |sel|
  {
    hide HT.Kraft, Pow2, CC.Code, DataBits;
    ghost var c := w.Contents();
    selCtr := 0;
    var gs := 0;
    while gs < nMTF
      invariant 0 <= gs <= nMTF && w.Valid()
      invariant if gs < nMTF then gs == G_SIZE * selCtr && 0 <= selCtr < |sel| else selCtr == |sel|
      invariant w.Contents() + DataBits(syms, sel, lens, gs) == c + DataBits(syms, sel, lens, 0)
      decreases nMTF - gs
    {
      var ge := gs + G_SIZE - 1;
      if ge >= nMTF { ge := nMTF - 1; }
      ghost var t := sel[selCtr];
      assert selector[..|sel|][selCtr] == t && |lens[t]| == alphaSize;
      forall i | 0 <= i < alphaSize ensures code[t][i] == CC.Code(lens[t], i) {
        assert lens[t][i] >= 0;
      }
      SendGroupCodes(w, mtfv, gs, ge, len[selector[selCtr]], code[selector[selCtr]], selCtr, syms, sel, lens);
      gs := ge + 1;
      selCtr := selCtr + 1;
    }
    DataEnd(syms, sel, lens);
    assert w.Contents() + [] == w.Contents();
  }

  /** The table of each band so far, the last tables first. */
  ghost predicate BandsSoFar(len: seq<array<int>>, cuts: seq<int>, alphaSize: nat, nPart: int)
    requires alphaSize <= 258
    reads len
  {
    && Costed(len) && 0 <= nPart <= |len| && |cuts| == |len| - nPart + 1
    && forall t :: nPart <= t < |len| ==> InBand(len[t][..alphaSize], cuts[|len| - 1 - t], cuts[|len| - t], alphaSize)
  }

  /** The cuts so far, and where the next band begins. */
  ghost predicate CutsSoFar(f: seq<int>, cuts: seq<int>, n: int, nPart: int, gs: int) {
    && 0 <= nPart <= n && |cuts| == n - nPart + 1 && cuts[0] == 0 && 0 <= gs <= |f| && cuts[n - nPart] == gs
    && forall k :: 0 <= k < n - nPart ==> Cut(f, cuts[k], n - k, n, cuts[k + 1])
  }

  lemma CutsNext(f: seq<int>, cuts: seq<int>, n: int, nPart: int, gs: int, next: int)
    requires CutsSoFar(f, cuts, n, nPart, gs) && nPart > 0 && Cut(f, gs, nPart, n, next)
    ensures CutsSoFar(f, cuts + [next], n, nPart - 1, next)
  {
    hide Shortest, Share;
  }

  method NewTables(nGroups: nat) returns (len: seq<array<int>>)
    ensures |len| == nGroups && Rows(len) && forall t :: 0 <= t < nGroups ==> fresh(len[t])
    ensures forall t, v :: 0 <= t < nGroups && 0 <= v < 258 ==> len[t][v] == GREATER_ICOST
  {
    len := [];
    for t := 0 to nGroups
      invariant |len| == t && Rows(len) && forall u :: 0 <= u < t ==> fresh(len[u])
      invariant forall u, v :: 0 <= u < t && 0 <= v < 258 ==> len[u][v] == GREATER_ICOST
    {
      var row := new int[258](_ => GREATER_ICOST);
      len := len + [row];
    }
  }

  /** The initial set of coding tables: each favours its band of symbols. */
  method InitialTables(mtfFreq: array<int>, nMTF: int, nGroups: nat, alphaSize: nat)
    returns (len: seq<array<int>>, ghost cuts: seq<int>)
    requires 0 < alphaSize <= 258 == mtfFreq.Length && nGroups > 0 && Sum(mtfFreq[..alphaSize]) == nMTF
    ensures |len| == nGroups && Costed(len) && forall t :: 0 <= t < nGroups ==> fresh(len[t])
    ensures Banded(Lens(len, alphaSize), cuts, alphaSize) && Even(mtfFreq[..alphaSize], cuts, nGroups)
  {
    hide Sum, Cut, InBand;
    ghost var f := mtfFreq[..alphaSize];
    len := NewTables(nGroups);
    var nPart, remF, gs := nGroups, nMTF, 0;
    cuts := [0];
    assert f[0..] == f;
    while nPart > 0
      invariant 0 <= nPart <= nGroups && mtfFreq[..alphaSize] == f && |len| == nGroups
      invariant forall t :: 0 <= t < nGroups ==> fresh(len[t])
      invariant forall t, v :: 0 <= t < nPart && 0 <= v < 258 ==> len[t][v] == GREATER_ICOST
      invariant CutsSoFar(f, cuts, nGroups, nPart, gs) && remF == Sum(f[gs..])
      invariant BandsSoFar(len, cuts, alphaSize, nPart)
    {
      var ge;
      ge, remF := CutBand(mtfFreq, gs, alphaSize, nPart, nGroups, remF);
      CutsNext(f, cuts, nGroups, nPart, gs, ge + 1);
      CutRange(f, gs, nPart, nGroups, ge + 1);
      FillRow(len[nPart - 1], gs, ge, alphaSize);
      cuts := cuts + [ge + 1];
      nPart := nPart - 1;
      gs := ge + 1;
    }
    assert Lens(len, alphaSize) == Lens(len, alphaSize);
  }

  lemma CutRange(f: seq<int>, gs: int, nPart: int, n: int, next: int)
    requires Cut(f, gs, nPart, n, next)
    ensures 0 <= gs <= next <= |f|
  {
  }

  lemma SelectedSelectors(sel: seq<int>, n: nat, nMTF: int)
    requires Selected(sel, n, nMTF, nMTF) && 2 <= n <= 6 && 0 < nMTF && |sel| <= 18002
    ensures Selectors(sel, n) && |sel| == (nMTF + 49) / 50
  {
  }

  lemma LengthedHolds(len: seq<array<int>>, alphaSize: nat)
    requires 2 <= alphaSize <= 258 && Lengthed(len, |len|, alphaSize)
    ensures Rows(len) && Holds(len, Lens(len, alphaSize), alphaSize)
    ensures (forall t :: 0 <= t < |len| ==> Decodable(Lens(len, alphaSize)[t], alphaSize)) && Short(Lens(len, alphaSize))
  {
    hide HT.Kraft, Pow2, Decodable;
    LensDecodable(len, alphaSize);
  }

  lemma SymbolsReady(sel: seq<int>, lens: seq<seq<int>>, syms: seq<int>, alphaSize: nat)
    requires |syms| > 0 && Selected(sel, |lens|, |syms|, |syms|)
    requires forall t :: 0 <= t < |lens| ==> Decodable(lens[t], alphaSize)
    requires forall i :: 0 <= i < |syms| ==> 0 <= syms[i] < alphaSize
    ensures Ready(sel, lens, syms, alphaSize)
  {
  }

  /** How often each symbol of the alphabet occurs. */
  ghost function FrequenciesOf(syms: seq<int>, alphaSize: nat): (f: seq<int>)
    ensures |f| == alphaSize && forall v :: 0 <= v < alphaSize ==> f[v] == Count(syms, v)
  {
    seq(alphaSize, (v: int) requires 0 <= v < alphaSize => Count(syms, v))
  }

  /** Together they are as many as there are symbols. */
  lemma {:induction false} FrequenciesSum(syms: seq<int>, alphaSize: nat)
    requires forall i :: 0 <= i < |syms| ==> 0 <= syms[i] < alphaSize
    ensures Sum(FrequenciesOf(syms, alphaSize)) == |syms|
  {
    hide Sum;
    if syms == [] {
      SumZeros(FrequenciesOf(syms, alphaSize));
    } else {
      var t, x := syms[..|syms| - 1], syms[|syms| - 1];
      var f := FrequenciesOf(t, alphaSize);
      FrequenciesSum(t, alphaSize);
      SumUpdate(f, x, f[x] + 1);
      assert FrequenciesOf(syms, alphaSize) == f[x := f[x] + 1];
    }
  }

  /** The tables to begin with: one favours each band of symbols, the bands cut by their frequencies. */
  ghost predicate Start(lens: seq<seq<int>>, syms: seq<int>, alphaSize: nat) {
    exists cuts :: Banded(lens, cuts, alphaSize) && Even(FrequenciesOf(syms, alphaSize), cuts, |lens|)
  }

  /** The tables and selectors sent: those of the fourth round from there. */
  ghost predicate Improved(lens: seq<seq<int>>, sel: seq<int>, syms: seq<int>, alphaSize: nat) {
    exists tables, choices :: ImprovedBy(tables, choices, lens, sel, syms, alphaSize)
  }

  ghost predicate ImprovedBy(tables: seq<seq<seq<int>>>, choices: seq<seq<int>>, lens: seq<seq<int>>, sel: seq<int>, syms: seq<int>,
                             alphaSize: nat)
  {
    && Refined(tables, choices, syms, 4) && tables[4] == lens && choices[3] == sel
    && Start(tables[0], syms, alphaSize)
  }

  /** In the tables to begin with, every symbol that may occur is favoured by exactly one. */
  lemma StartFavours(lens: seq<seq<int>>, syms: seq<int>, alphaSize: nat, v: int) returns (t: nat)
    requires Start(lens, syms, alphaSize) && |lens| > 0 && syms != [] && syms[|syms| - 1] == alphaSize - 1 && 0 <= v < alphaSize
    ensures t < |lens| && forall u :: 0 <= u < |lens| ==> |lens[u]| == alphaSize && lens[u][v] == if u == t then 0 else 15
  {
    hide Even;
    var f := FrequenciesOf(syms, alphaSize);
    var cuts :| Banded(lens, cuts, alphaSize) && Even(f, cuts, |lens|);
    CountIn(syms, alphaSize - 1);
    LastCut(f, cuts, |lens|);
    var j := OneBand(f, cuts, |lens|, |lens|, v);
    t := |lens| - 1 - j;
    forall u | 0 <= u < |lens| ensures |lens[u]| == alphaSize && lens[u][v] == if u == t then 0 else 15 {
      assert InBand(lens[u], cuts[|lens| - 1 - u], cuts[|lens| - u], alphaSize);
    }
  }

  /** The last round's tables are the best for the groups that use them. */
  lemma ImprovedBest(lens: seq<seq<int>>, sel: seq<int>, syms: seq<int>, alphaSize: nat)
    requires Improved(lens, sel, syms, alphaSize)
    ensures Best(lens, syms, sel)
  {
    hide Best, Chosen, Start;
    var tables, choices :| ImprovedBy(tables, choices, lens, sel, syms, alphaSize);
    assert RoundOf(tables[3], choices[3], tables[3 + 1], syms);
  }

  /** The initial tables and the four rounds. */
  method DecideTables(mtfv: array<int>, nMTF: int, mtfFreq: array<int>, alphaSize: nat, selector: array<int>, ghost syms: seq<int>)
    returns (len: seq<array<int>>, nSelectors: int)
    requires 0 < nMTF == |syms| <= 900001 && nMTF <= mtfv.Length && mtfv[..nMTF] == syms && selector != mtfv && selector.Length == 18002
    requires 2 <= alphaSize <= 258 == mtfFreq.Length && forall i :: 0 <= i < nMTF ==> 0 <= syms[i] < alphaSize
    requires mtfFreq[..alphaSize] == FrequenciesOf(syms, alphaSize)
    modifies selector
    ensures 2 <= |len| == TableCount(nMTF) <= 6 && Lengthed(len, |len|, alphaSize)
    ensures 0 <= nSelectors <= 18002 && Selected(selector[..nSelectors], |len|, nMTF, nMTF)
    ensures Improved(Lens(len, alphaSize), selector[..nSelectors], syms, alphaSize)
  {
    hide Sum, Selected, HT.Kraft, Pow2, Refined, Even, Banded, Costed, Rows;
    FrequenciesSum(syms, alphaSize);
    ghost var cuts;
    len, cuts := InitialTables(mtfFreq, nMTF, TableCount(nMTF), alphaSize);
    CostedRows(len);
    ghost var first := Lens(len, alphaSize);
    assert Start(first, syms, alphaSize);
    forall i | 0 <= i < nMTF ensures 0 <= mtfv[i] < alphaSize { assert mtfv[i] == mtfv[..nMTF][i]; }
    ghost var tables, choices;
    nSelectors, tables, choices := ChooseTables(mtfv, nMTF, alphaSize, len, selector);
    assert mtfv[..nMTF] == syms;
    assert ImprovedBy(tables, choices, Lens(len, alphaSize), selector[..nSelectors], syms, alphaSize);
  }

  lemma CostedRows(len: seq<array<int>>)
    requires Costed(len)
    ensures Rows(len)
  {
  }

  /** The deciding half: tables, selectors, their move-to-front values, and the codes. */
  method PrepareTables(mtfv: array<int>, nMTF: int, mtfFreq: array<int>, alphaSize: nat, ghost syms: seq<int>)
    returns (len: seq<array<int>>, code: seq<array<int>>, selector: array<int>, selectorMtf: array<int>, nSelectors: int,
             ghost sel: seq<int>, ghost lens: seq<seq<int>>)
    requires 0 < nMTF == |syms| <= 900001 && nMTF <= mtfv.Length && mtfv[..nMTF] == syms
    requires 2 <= alphaSize <= 258 == mtfFreq.Length && forall i :: 0 <= i < nMTF ==> 0 <= syms[i] < alphaSize
    requires mtfFreq[..alphaSize] == FrequenciesOf(syms, alphaSize)
    ensures 2 <= |lens| <= 6 && Holds(len, lens, alphaSize) && |code| == |lens| && Coded(code, lens, |lens|)
    ensures 0 <= nSelectors == |sel| <= selector.Length && selector[..|sel|] == sel && Selectors(sel, |lens|)
    ensures nSelectors <= selectorMtf.Length && selectorMtf[..|sel|] == SelectorMtf(sel, Initial(|lens|))
    ensures Ready(sel, lens, syms, alphaSize) && Short(lens)
    ensures Improved(lens, sel, syms, alphaSize) && |lens| == TableCount(nMTF)
  {
    hide Improved, Short, HT.Kraft, Pow2, SelectorMtf, CC.Code, Selected, Selectors, Initial, Lengthed, Decodable, Ready, Holds, Coded,
         TableCount, FrequenciesOf;
    selector, selectorMtf := new int[18002], new int[18002];
    len, nSelectors := DecideTables(mtfv, nMTF, mtfFreq, alphaSize, selector, syms);
    sel := selector[..nSelectors];
    LengthedHolds(len, alphaSize);
    lens := Lens(len, alphaSize);
    SymbolsReady(sel, lens, syms, alphaSize);
    SelectedSelectors(sel, |len|, nMTF);
    ComputeSelectorMtf(selector, selectorMtf, nSelectors, |len|);
    code := AssignAllCodes(len, alphaSize);
  }

  /** sendMTFValues: mapping table, selectors, coding tables and data. */
  method SendMTFValues(w: BitWriter, mtfv: array<int>, nMTF: int, mtfFreq: array<int>, inUse: array<bool>, nInUse: nat,
                       ghost syms: seq<int>)
    returns (ghost sel: seq<int>, ghost lens: seq<seq<int>>)
    requires w.Valid() && 0 < nMTF == |syms| <= 900001 && nMTF <= mtfv.Length && mtfv[..nMTF] == syms
    requires inUse.Length == 256 && nInUse <= 256 && forall i :: 0 <= i < nMTF ==> 0 <= syms[i] <= nInUse + 1
    requires mtfFreq.Length == 258 && mtfFreq[..nInUse + 2] == FrequenciesOf(syms, nInUse + 2)
    modifies w
    ensures w.Valid() && 2 <= |lens| <= 6
    ensures Selectors(sel, |lens|) && |sel| == (nMTF + 49) / 50
    ensures Improved(lens, sel, syms, nInUse + 2) && |lens| == TableCount(nMTF)
    ensures (forall t :: 0 <= t < |lens| ==> Decodable(lens[t], nInUse + 2)) && Short(lens)
    ensures w.Contents() == old(w.Contents()) + MappingBits(inUse[..]) + SelectorBits(|lens|, sel) + AllTableBits(lens)
                            + DataBits(syms, sel, lens, 0)
  {
    hide Improved, Short, MappingBits, SelectorBits, AllTableBits, DataBits, SelectorMtf, Decodable, Selectors, CC.Code, TableBits, BitsOf,
         BitWriter.Contents, BitWriter.Valid, Initial, Unary, UnaryAll, TableCount, FrequenciesOf;
    var len, code, selector, selectorMtf, nSelectors;
    len, code, selector, selectorMtf, nSelectors, sel, lens := PrepareTables(mtfv, nMTF, mtfFreq, nInUse + 2, syms);
    SendMapping(w, inUse);
    SendSelectors(w, |len|, selectorMtf, nSelectors, sel);
    SendTables(w, len, nInUse + 2, lens);
    var selCtr := SendData(w, mtfv, nMTF, len, code, selector, nInUse + 2, sel, lens, syms);
  }

  // ----- BZ2_compressBlock after the sort -----

  /** The six bytes that open a block. */
  method PutBlockMark(w: BitWriter)
    requires w.Valid()
    modifies w
    ensures w.Valid() && w.Contents() == old(w.Contents()) + MagicBits(1)
  {
    hide BitsOf, MagicBits, BitWriter.Contents, BitWriter.Valid;
    PutUChar(w, 0x31);
    PutUChar(w, 0x41);
    PutUChar(w, 0x59);
    PutUChar(w, 0x26);
    PutUChar(w, 0x53);
    PutUChar(w, 0x59);
    MarkBytes();
  }

  lemma MarkBytes()
    ensures MagicBits(1) == BitsOf(8, 0x31) + BitsOf(8, 0x41) + BitsOf(8, 0x59) + BitsOf(8, 0x26) + BitsOf(8, 0x53) + BitsOf(8, 0x59)
  {
    hide BitsOf;
    assert MagicBits(7) == [];
    assert MagicBits(6) == BitsOf(8, 0x59) + [] == BitsOf(8, 0x59);
    assert MagicBits(5) == BitsOf(8, 0x53) + MagicBits(6);
    assert MagicBits(4) == BitsOf(8, 0x26) + MagicBits(5);
    assert MagicBits(3) == BitsOf(8, 0x59) + MagicBits(4);
    assert MagicBits(2) == BitsOf(8, 0x41) + MagicBits(3);
  }

  method PutHeader(w: BitWriter, crc: nat, origPtr: nat)
    requires w.Valid() && crc < Pow2(32) && origPtr < Pow2(24)
    modifies w
    ensures w.Valid() && w.Contents() == old(w.Contents()) + HeaderBits(crc, origPtr)
  {
    hide BitsOf, MagicBits, Pow2, BitWriter.Contents, BitWriter.Valid;
    PutBlockMark(w);
    PutUInt32(w, crc);
    PutBit(w, false);
    w.Write(24, origPtr);
  }

  /** The symbols are in the alphabet. */
  lemma SymbolRange(codes: seq<int>, n: nat)
    requires Codes(codes, n) && n > 0
    ensures var syms := Symbols(codes, n);
            0 < |syms| <= |codes| + 1 && forall i :: 0 <= i < |syms| ==> 0 <= syms[i] <= n + 1
  {
    hide EncodeAll, DecodeFrom;
    var syms := Symbols(codes, n);
    SymbolsShort(codes, n);
    SymbolsRoundTrip(codes, n, n);
    forall i | 0 <= i < |syms| ensures 0 <= syms[i] <= n + 1 {
      if i < |syms| - 1 { assert syms[..|syms| - 1][i] == syms[i]; }
    }
  }

  lemma WrittenFrequencies(mem: seq<int>, freq: seq<int>, alphaSize: nat, wr: int, syms: seq<int>)
    requires ME.Written(mem, freq, alphaSize, wr, syms)
    ensures wr == |syms| <= |mem| && mem[..wr] == syms && alphaSize <= |freq| && freq[..alphaSize] == FrequenciesOf(syms, alphaSize)
  {
  }

  /**
    BZ2_compressBlock from the sorted block on: header, move-to-front values, and everything
    sendMTFValues sends. The bits written are those of a description k of the block.
  */
  method EmitBlock(w: BitWriter, crc: nat, origPtr: nat, mem: array<int>, block: array<Byte>, inUse: array<bool>,
                   ghost p: seq<int>)
    returns (ghost k: Block)
    requires w.Valid() && crc < Pow2(32) && 0 < block.Length <= 900000
    requires SortedRotations(block[..], p) && origPtr < |p| && p[origPtr] == 0
    requires inUse.Length == 256 && ME.Marks(inUse[..], block[..]) && ME.Unread(mem[..], p, 0)
    modifies w, mem
    ensures w.Valid() && Sends(k, block[..], p) && k.crc == crc && k.origPtr == origPtr
    ensures |k.inUse| == 256 && w.Contents() == old(w.Contents()) + BlockBits(k)
    ensures Improved(k.len, k.selector, k.syms, |ME.Used(k.inUse)| + 2)
    ensures k.nGroups == if |k.syms| < 200 then 2 else if |k.syms| < 600 then 3 else if |k.syms| < 1200 then 4
                         else if |k.syms| < 2400 then 5 else 6
  {
    hide Improved, Short, HeaderBits, MappingBits, SelectorBits, AllTableBits, DataBits, Pow2, ME.Unread, Symbols, EncodeAll, Decodable,
         ME.Used, LastColumn, ME.CodesOf, Cmp, Selectors, BitWriter.Contents, BitWriter.Valid;
    ghost var b, u := block[..], inUse[..];
    Pow24();
    PutHeader(w, crc, origPtr);
    var unseqToSeq, mtfFreq := new int[256], new int[258];
    assert IsPerm(p);
    var nInUse, nMTF := ME.GenerateMTFValues(mem, block, inUse, unseqToSeq, mtfFreq, block.Length, p);
    UsedSome(u, b[0]);
    ghost var codes := ME.CodesOf(u, LastColumn(b, p));
    SymbolRange(codes, nInUse);
    WrittenFrequencies(mem[..], mtfFreq[..], nInUse + 2, nMTF, Symbols(codes, nInUse));
    ghost var sel, lens;
    sel, lens := SendMTFValues(w, mem, nMTF, mtfFreq, inUse, nInUse, Symbols(codes, nInUse));
    k := Block(crc, origPtr, u, |lens|, sel, lens, Symbols(codes, nInUse));
  }
}
