/**
  BZ2_decompress (dep/bzip2/decompress.c, lines 106-621) as a resumable machine. Every GET_BITS
  label of the source is a `Label` carrying the loop counters live at that point; `Saved` is the
  DState together with the save area. `Step` is what happens between two calls of GET_BITS. The
  source does not test everything it reads: where it would index past an array or leave the range
  of Int32, the machine is in the state `Stray`. This is the specification; the machine over the
  decoder's arrays is in ReadingMachine.
*/
module Decompress {
  import opened Common
  import opened BitIO
  import opened CanonicalCode
  import opened DecodeTables
  import opened Mtf
  import opened MtfEncoder

  const DATA_ERROR := -4
  const DATA_ERROR_MAGIC := -5
  const G_SIZE := 50
  const MAX_SELECTORS := 18002
  const INT32_MAX := 0x7fff_ffff

  datatype Saved = Saved(
    blockSize100k: int,
    storedCRC: int,
    blockRandomised: bool,
    origPtr: int,
    inUse16: seq<bool>,
    inUse: seq<bool>,
    nGroups: int,
    nSelectors: int,
    selectorMtf: seq<int>,
    selector: seq<int>,
    len: seq<seq<int>>,
    groupNo: int,
    groupPos: int,
    mtf: Decoder)

  datatype Label =
    | Magic(k: int)
    | BlkHdr(k: int)
    | BCrc(k: int)
    | RandBit
    | OrigPtr(k: int)
    | Mapping1(i: int)
    | Mapping2(i: int, j: int)
    | Selector1
    | Selector2
    | Selector3(j: int)
    | Coding1(t: int)
    | Coding2(lens: seq<int>, curr: int)
    | Coding3(lens: seq<int>, curr: int)
    | MtfFirst(zn: int)              // BZ_X_MTF_1, 3 and 5
    | MtfMore(zn: int, zvec: int)    // BZ_X_MTF_2, 4 and 6
    | EndHdr(k: int)
    | CCrc(k: int)

  datatype State =
    | Running(at: Label, s: Saved)
    | Output(s: Saved, column: seq<Byte>)   // BZ_X_OUTPUT: a block has been read
    | StreamEnd(s: Saved)
    | Failed(code: int)
    | Stray                                 // an index has left its array, or a number the range of Int32

  /** How many bits GET_BITS asks for at a label. */
  function Need(at: Label): nat {
    match at
    case Magic(_) => 8
    case BlkHdr(_) => 8
    case BCrc(_) => 8
    case RandBit => 1
    case OrigPtr(_) => 8
    case Mapping1(_) => 1
    case Mapping2(_, _) => 1
    case Selector1 => 3
    case Selector2 => 15
    case Selector3(_) => 1
    case Coding1(_) => 5
    case Coding2(_, _) => 1
    case Coding3(_, _) => 1
    case MtfFirst(zn) => if 1 <= zn <= LONGEST then zn else 1
    case MtfMore(_, _) => 1
    case EndHdr(_) => 8
    case CCrc(_) => 8
  }

  // ----- header bytes -----

  /** "BZh" and the six bytes of the block and end-of-stream marks. */
  function MagicByte(k: int): Byte {
    if k == 1 then 0x42 else if k == 2 then 0x5a else 0x68
  }

  function BlockByte(k: int): Byte {
    if k == 1 then 0x31 else if k == 2 then 0x41 else if k == 3 then 0x59
    else if k == 4 then 0x26 else if k == 5 then 0x53 else 0x59
  }

  function EndByte(k: int): Byte {
    if k == 1 then 0x17 else if k == 2 then 0x72 else if k == 3 then 0x45
    else if k == 4 then 0x38 else if k == 5 then 0x50 else 0x90
  }

  // ----- the mapping table -----

  /** To the next group of sixteen that has bytes in use, or past the table. */
  function NextGroup(s: Saved, i: nat): State
    requires |s.inUse16| == 16 && i <= 16
    decreases 16 - i
  {
    if i == 16 then
      if |Used(s.inUse)| == 0 then Failed(DATA_ERROR) else Running(Selector1, s)
    else if s.inUse16[i] then Running(Mapping2(i, 0), s)
    else NextGroup(s, i + 1)
  }

  // ----- the selectors -----

  /** Undoing the move-to-front values of the selectors. */
  function UndoSelectors(mtf: seq<int>, pos: seq<int>): (sel: seq<int>)
    ensures |sel| == |mtf|
    decreases |mtf|
  {
    if mtf == [] then []
    else if 0 <= mtf[0] < |pos| then [pos[mtf[0]]] + UndoSelectors(mtf[1..], ToFront(pos, mtf[0]))
    else [0] + UndoSelectors(mtf[1..], pos)
  }

  // ----- the coding tables -----

  function CodingCheck(lens: seq<int>, curr: int, s: Saved): State {
    if curr < 1 || curr > LONGEST then Failed(DATA_ERROR) else Running(Coding2(lens, curr), s)
  }

  /** One code length is complete. */
  function LengthRead(lens: seq<int>, curr: int, s: Saved): State {
    if |lens| < |Used(s.inUse)| + 2 then CodingCheck(lens, curr, s)
    else
      var s' := s.(len := s.len + [lens]);
      if |s'.len| < s.nGroups then Running(Coding1(|s'.len|), s')
      else GetMtf(TablesRead(s'))
  }

  /** All lengths have been received, and the symbols begin. */
  function TablesRead(s: Saved): Saved {
    s.(groupNo := -1, groupPos := 0, mtf := Start(256))
  }

  // ----- GET_MTF_VAL -----

  /** The start of GET_MTF_VAL: a new group of fifty changes the coding table. */
  function GetMtf(s: Saved): State {
    if s.groupPos == 0 && s.groupNo + 1 >= s.nSelectors then Failed(DATA_ERROR)
    else
      var s' := if s.groupPos == 0 then s.(groupNo := s.groupNo + 1, groupPos := G_SIZE - 1)
                else s.(groupPos := s.groupPos - 1);
      Running(MtfFirst(MinLen(CurrentLengths(s'))), s')
  }

  /** The lengths of the coding table in use. */
  function CurrentLengths(s: Saved): seq<int> {
    if 0 <= s.groupNo < |s.selector| && 0 <= s.selector[s.groupNo] < |s.len| then s.len[s.selector[s.groupNo]] else []
  }

  /** A table for them. Which one does not matter (LookupAlike). */
  function CurrentTable(s: Saved): Tables {
    TablesOf(CurrentLengths(s))
  }

  /** The loop of GET_MTF_VAL, between two of its GET_BIT. */
  function MtfCheck(zn: int, zvec: int, s: Saved): State {
    match Lookup(CurrentTable(s), zn, zvec)
    case Sym(sym) => Symbol(sym, s)
    case Longer => Running(MtfMore(zn + 1, zvec), s)
    case NoCode => Failed(DATA_ERROR)
  }

  /** seqToUnseq applied to every entry of a column of codes. */
  function Unmapped(used: seq<int>, codes: seq<int>): (column: seq<Byte>)
    ensures |column| == |codes|
  {
    seq(|codes|, (i: int) requires 0 <= i < |codes| =>
      if 0 <= codes[i] < |used| && 0 <= used[codes[i]] < 256 then used[codes[i]] else 0)
  }

  /** A symbol: the end mark, a run digit, or a move-to-front value. */
  function Symbol(sym: int, s: Saved): State {
    var n := |Used(s.inUse)|;
    var nblockMAX := 100000 * s.blockSize100k;
    var d := s.mtf;
    if sym < 0 || sym > n + 1 || |d.list| == 0 || |d.list| < n then Failed(DATA_ERROR)
    else if sym == RUNA || sym == RUNB then GetMtf(s.(mtf := Decode1(d, sym)))
    else if |d.col| + d.run > nblockMAX then Failed(DATA_ERROR)
    else if sym == n + 1 then
      var column := Unmapped(Used(s.inUse), Flush(d).col);
      if s.origPtr < 0 || s.origPtr >= |column| then Failed(DATA_ERROR) else Output(s.(mtf := Flush(d)), column)
    else if |d.col| + d.run >= nblockMAX then Failed(DATA_ERROR)
    else GetMtf(s.(mtf := Decode1(d, sym)))
  }

  // ----- the machine -----

  /** unzftab at the byte a pending run stands for. */
  function Tally(s: Saved): nat {
    var used, list := Used(s.inUse), s.mtf.list;
    if |list| > 0 && 0 <= list[0] < |used| then Count<int>(Unmapped(used, s.mtf.col), used[list[0]]) else 0
  }

  /** A run digit that es or N cannot take, or a run that unzftab cannot. */
  predicate SymbolStrays(sym: int, s: Saved) {
    var d := s.mtf;
    if sym == RUNA || sym == RUNB
    then d.run - 1 + (if sym == RUNA then d.weight else 2 * d.weight) > INT32_MAX || 2 * d.weight > INT32_MAX
    else d.run > 0 && Tally(s) + d.run > INT32_MAX
  }

  predicate CodeStrays(zn: int, zvec: int, s: Saved) {
    match Lookup(CurrentTable(s), zn, zvec)
    case Sym(sym) => SymbolStrays(sym, s)
    case Longer => false
    case NoCode => false
  }

  /** A symbol, if it leads nowhere astray. */
  function Received(sym: int, s: Saved): State {
    if SymbolStrays(sym, s) then Stray else Symbol(sym, s)
  }

  /** The loop of GET_MTF_VAL, likewise. */
  function Checked(zn: int, zvec: int, s: Saved): State {
    if CodeStrays(zn, zvec, s) then Stray else MtfCheck(zn, zvec, s)
  }

  /** What follows the GET_BITS at a label, when it returns v, leaves an array or the range of Int32. */
  predicate Strays(at: Label, s: Saved, v: nat) {
    match at
    case Selector3(_) => v == 0 && |s.selectorMtf| >= MAX_SELECTORS
    case MtfFirst(zn) => CodeStrays(zn, v, s)
    case MtfMore(zn, zvec) => CodeStrays(zn, 2 * zvec + v, s)
    case _ => false
  }

  /** From one GET_BITS, which returned v, to the next. */
  function Step(at: Label, s: Saved, v: nat): State {
    if Strays(at, s, v) then Stray else Onward(at, s, v)
  }

  /** The same over unbounded numbers and sequences. */
  function Onward(at: Label, s: Saved, v: nat): State {
    match at
    case Magic(k) =>
      if k <= 3 then
        if v == MagicByte(k) then Running(Magic(k + 1), s) else Failed(DATA_ERROR_MAGIC)
      else if 0x31 <= v <= 0x39 then Running(BlkHdr(1), s.(blockSize100k := v - 0x30))
      else Failed(DATA_ERROR_MAGIC)
    case BlkHdr(k) =>
      if k == 1 && v == EndByte(1) then Running(EndHdr(2), s)
      else if v != BlockByte(k) then Failed(DATA_ERROR)
      else if k < 6 then Running(BlkHdr(k + 1), s)
      else Running(BCrc(1), s.(storedCRC := 0))
    case BCrc(k) =>
      var s' := s.(storedCRC := s.storedCRC * 256 + v);
      if k < 4 then Running(BCrc(k + 1), s') else Running(RandBit, s')
    case RandBit => Running(OrigPtr(1), s.(blockRandomised := v == 1, origPtr := 0))
    case OrigPtr(k) =>
      var s' := s.(origPtr := s.origPtr * 256 + v);
      if k < 3 then Running(OrigPtr(k + 1), s')
      else if s'.origPtr > 10 + 100000 * s.blockSize100k then Failed(DATA_ERROR)
      else Running(Mapping1(0), s'.(inUse16 := [], inUse := seq(256, _ => false)))
    case Mapping1(i) =>
      var s' := s.(inUse16 := s.inUse16 + [v == 1]);
      if |s'.inUse16| < 16 then Running(Mapping1(|s'.inUse16|), s')
      else if |s'.inUse16| == 16 then NextGroup(s', 0) else Failed(DATA_ERROR)
    case Mapping2(i, j) =>
      if !(0 <= i < 16 && 0 <= j < 16 && |s.inUse| == 256 && |s.inUse16| == 16) then Failed(DATA_ERROR)
      else
        var s' := if v == 1 then s.(inUse := s.inUse[i * 16 + j := true]) else s;
        if j < 15 then Running(Mapping2(i, j + 1), s') else NextGroup(s', i + 1)
    case Selector1 => if v < 2 || v > 6 then Failed(DATA_ERROR) else Running(Selector2, s.(nGroups := v))
    case Selector2 =>
      if v < 1 then Failed(DATA_ERROR) else Running(Selector3(0), s.(nSelectors := v, selectorMtf := []))
    case Selector3(j) =>
      if v == 0 then
        var s' := s.(selectorMtf := s.selectorMtf + [j]);
        if |s'.selectorMtf| < s.nSelectors then Running(Selector3(0), s')
        else Running(Coding1(0), s'.(selector := UndoSelectors(s'.selectorMtf, Initial(if s.nGroups >= 0 then s.nGroups else 0)), len := []))
      else if j + 1 >= s.nGroups then Failed(DATA_ERROR)
      else Running(Selector3(j + 1), s)
    case Coding1(t) => CodingCheck([], v, s)
    case Coding2(lens, curr) =>
      if v == 0 then LengthRead(lens + [curr], curr, s) else Running(Coding3(lens, curr), s)
    case Coding3(lens, curr) => CodingCheck(lens, if v == 0 then curr + 1 else curr - 1, s)
    case MtfFirst(zn) => MtfCheck(zn, v, s)
    case MtfMore(zn, zvec) => MtfCheck(zn, 2 * zvec + v, s)
    case EndHdr(k) =>
      if v != EndByte(k) then Failed(DATA_ERROR)
      else if k < 6 then Running(EndHdr(k + 1), s)
      else Running(CCrc(1), s.(storedCRC := 0))
    case CCrc(k) =>
      var s' := s.(storedCRC := s.storedCRC * 256 + v);
      if k < 4 then Running(CCrc(k + 1), s') else StreamEnd(s')
  }

  /** Running on as far as the given bits allow; what is returned are the bits not yet consumed. */
  function Run(st: State, bits: Bits): (State, Bits)
    decreases |bits|
  {
    if st.Running? && |bits| >= Need(st.at)
    then Run(Step(st.at, st.s, ValueOf(bits[..Need(st.at)])), bits[Need(st.at)..])
    else (st, bits)
  }

  /**
    Suspension is invisible: feeding the stream in two portions, split at any bit, ends in the
    same state with the same bits left as feeding it at once.
  */
  lemma {:induction false} RunSplit(st: State, a: Bits, b: Bits)
    ensures Run(st, a + b) == Run(Run(st, a).0, Run(st, a).1 + b)
    decreases |a|
  {
    if st.Running? && |a| >= Need(st.at) {
      var n := Need(st.at);
      assert (a + b)[..n] == a[..n] && (a + b)[n..] == a[n..] + b;
      RunSplit(Step(st.at, st.s, ValueOf(a[..n])), a[n..], b);
    }
  }

  // ----- runs that stray -----

  /** Running on over unbounded numbers and sequences. */
  function FreeRun(st: State, bits: Bits): (State, Bits)
    decreases |bits|
  {
    if st.Running? && |bits| >= Need(st.at)
    then FreeRun(Onward(st.at, st.s, ValueOf(bits[..Need(st.at)])), bits[Need(st.at)..])
    else (st, bits)
  }

  /** On these bits the free run never leaves an array or the range of Int32. */
  predicate Tame(st: State, bits: Bits)
    decreases |bits|
  {
    st.Running? && |bits| >= Need(st.at) ==>
      var v := ValueOf(bits[..Need(st.at)]);
      !Strays(st.at, st.s, v) && Tame(Onward(st.at, st.s, v), bits[Need(st.at)..])
  }

  lemma {:induction false} GroupsKept(s: Saved, i: nat)
    requires |s.inUse16| == 16 && i <= 16
    ensures !NextGroup(s, i).Stray?
    decreases 16 - i
  {
    hide Used;
    if i < 16 { GroupsKept(s, i + 1); }
  }

  lemma OnwardKept(at: Label, s: Saved, v: nat)
    ensures !Onward(at, s, v).Stray?
  {
    hide Used, NextGroup, Lookup, CurrentTable, UndoSelectors, Unmapped, MinLen;
    match at {
      case Mapping1(_) =>
        var s' := s.(inUse16 := s.inUse16 + [v == 1]);
        if |s'.inUse16| == 16 { GroupsKept(s', 0); }
      case Mapping2(i, j) =>
        if 0 <= i < 16 && 0 <= j < 16 && |s.inUse| == 256 && |s.inUse16| == 16 {
          GroupsKept(if v == 1 then s.(inUse := s.inUse[i * 16 + j := true]) else s, i + 1);
        }
      case _ =>
    }
  }

  /** The machine strays exactly on the bits on which the free run does, and on all others it is the free run. */
  lemma {:induction false} StraysExactly(st: State, bits: Bits)
    requires !st.Stray?
    ensures Run(st, bits).0.Stray? <==> !Tame(st, bits)
    ensures Tame(st, bits) ==> Run(st, bits) == FreeRun(st, bits)
    decreases |bits|
  {
    hide Strays, Onward, ValueOf;
    if st.Running? && |bits| >= Need(st.at) {
      var v := ValueOf(bits[..Need(st.at)]);
      OnwardKept(st.at, st.s, v);
      if !Strays(st.at, st.s, v) { StraysExactly(Onward(st.at, st.s, v), bits[Need(st.at)..]); }
    }
  }

  /** One field: written as n bits, it is read whole. */
  lemma RunField(at: Label, s: Saved, v: nat, rest: Bits)
    requires v < Pow2(Need(at))
    ensures Run(Running(at, s), BitsOf(Need(at), v) + rest) == Run(Step(at, s, v), rest)
  {
    WriteRead(Need(at), v, rest);
  }

  lemma RunBit(at: Label, s: Saved, v: bool, rest: Bits)
    requires Need(at) == 1
    ensures Run(Running(at, s), [v] + rest) == Run(Step(at, s, if v then 1 else 0), rest)
  {
    var b := [v] + rest;
    assert b[..1] == [v] && b[1..] == rest && [v][..0] == [];
    assert ValueOf([v]) == 2 * ValueOf([]) + if v then 1 else 0;
  }

  function EmptySaved(): Saved {
    Saved(0, 0, false, 0, [], seq(256, _ => false), 0, 0, [], [], [], 0, 0, Start(256))
  }
}
