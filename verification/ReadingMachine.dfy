/**
  BZ2_decompress (dep/bzip2/decompress.c, lines 106-621) over the decoder's own arrays and 32-bit
  fields: the selectors, limit, base and perm as BZ2_hbCreateDecodeTables fills them, the two-level
  move-to-front list, the map from codes to bytes, and the byte counts. On any input it goes where
  the specification machine goes, and it strays exactly on the runs that are not tame.
*/
module ReadingMachine {
  import opened Common
  import opened Counting
  import opened BitIO
  import opened CanonicalCode
  import opened DecodeTables
  import opened Mtf
  import opened MtfEncoder
  import opened MtfList
  import opened Decompress
  import opened MachineState

  /** `Strayed`: the source would now index past an array or overflow an Int32. It does not test for it. */
  datatype Phase = Reading(at: Label) | Written | Ended | Broken(code: int) | Strayed

  /** One round of undoing the selectors' move-to-front: entry v goes to the front. */
  method TakeToFront(pos: array<int>, v0: int) returns (tmp: int)
    requires 0 <= v0 < pos.Length
    modifies pos
    ensures tmp == old(pos[v0]) && pos[..] == ToFront(old(pos[..]), v0)
  {
    ghost var p := pos[..];
    var v := v0;
    tmp := pos[v];
    while v > 0
      invariant 0 <= v <= v0
      invariant forall x :: 0 <= x <= v || v0 < x < pos.Length ==> pos[x] == p[x]
      invariant forall x :: v < x <= v0 ==> pos[x] == p[x - 1]
    {
      pos[v] := pos[v - 1];
      v := v - 1;
    }
    pos[0] := tmp;
    assert pos[..] == [p[v0]] + p[..v0] + p[v0 + 1..];
  }

  /** The selectors from their move-to-front values. */
  method UndoMtf(selectorMtf: array<int>, selector: array<int>, nSelectors: nat, nGroups: nat)
    requires selectorMtf != selector && nSelectors <= selectorMtf.Length && nSelectors <= selector.Length
    requires Below(selectorMtf[..nSelectors], nGroups)
    modifies selector
    ensures selector[..nSelectors] == UndoSelectors(selectorMtf[..nSelectors], Initial(nGroups))
  {
    hide UndoSelectors;
    var pos := new int[nGroups](v => v);
    ghost var m := selectorMtf[..nSelectors];
    assert pos[..] == Initial(nGroups) && m[0..] == m;
    assert [] + UndoSelectors(m, Initial(nGroups)) == UndoSelectors(m, Initial(nGroups));
    for i := 0 to nSelectors
      invariant selector[..i] + UndoSelectors(m[i..], pos[..]) == UndoSelectors(m, Initial(nGroups))
    {
      ghost var p, done := pos[..], selector[..i];
      UndoNext(m, i, p);
      assert selectorMtf[i] == m[i];
      var tmp := TakeToFront(pos, selectorMtf[i]);
      selector[i] := tmp;
      assert selector[..i + 1] == done + [tmp];
      assert done + ([tmp] + UndoSelectors(m[i + 1..], pos[..])) == (done + [tmp]) + UndoSelectors(m[i + 1..], pos[..]);
    }
    UndoNone(pos[..]);
    assert m[nSelectors..] == [] && selector[..nSelectors] + [] == selector[..nSelectors];
  }

  lemma UndoNext(mtf: seq<int>, i: nat, pos: seq<int>)
    requires i < |mtf| && 0 <= mtf[i] < |pos|
    ensures UndoSelectors(mtf[i..], pos) == [pos[mtf[i]]] + UndoSelectors(mtf[i + 1..], ToFront(pos, mtf[i]))
  {
    assert mtf[i..][1..] == mtf[i + 1..];
  }

  lemma UndoNone(pos: seq<int>)
    ensures UndoSelectors([], pos) == []
  {
  }

  lemma GroupsNext(s: Saved, i: nat)
    requires |s.inUse16| == 16 && i < 16 && !s.inUse16[i]
    ensures NextGroup(s, i) == NextGroup(s, i + 1)
  {
  }

  /** Arrays of the given sizes. */
  method NewArrays(sizes: seq<nat>) returns (rows: seq<array<int>>)
    ensures |rows| == |sizes| && forall t :: 0 <= t < |sizes| ==> fresh(rows[t]) && rows[t].Length == sizes[t]
    ensures forall t, u :: 0 <= t < u < |sizes| ==> rows[t] != rows[u]
  {
    rows := [];
    for t := 0 to |sizes|
      invariant |rows| == t && forall u :: 0 <= u < t ==> fresh(rows[u]) && rows[u].Length == sizes[u]
      invariant forall u, w :: 0 <= u < w < t ==> rows[u] != rows[w]
    {
      var row := new int[sizes[t]];
      rows := rows + [row];
    }
  }

  class Decompressor {
    const reader: BitReader
    var phase: Phase
    var blockSize100k: int
    var storedCRC: UInt32
    var blockRandomised: bool
    var origPtr: Int32
    // the mapping table
    var inUse16: seq<bool>
    const inUse: array<bool>
    const seqToUnseq: array<int>
    var nInUse: Int32
    // selectors and code lengths
    var nGroups: Int32
    var nSelectors: Int32
    const selectorMtf: array<int>
    var received: Int32     // i, the selectors received
    const selector: array<int>
    var len: seq<seq<int>>
    // the decoding tables
    const limit: seq<array<int>>
    const base: seq<array<int>>
    const perm: seq<array<int>>
    const minLens: array<int>
    // the symbols
    var groupNo: Int32
    var groupPos: Int32
    var es: Int32
    var N: Int32
    const mtfa: array<int>
    const mtfbase: array<int>
    var column: seq<Byte>   // tt or ll16, entries 0, ..., nblock - 1
    const unzftab: array<int>

    ghost var mtfs: seq<int>      // the values in selectorMtf
    ghost var chosen: seq<int>    // the values in selector
    ghost var codes: seq<int>
    ghost var st: State

    ghost predicate Sizes() {
      && |limit| == |base| == |perm| == 6
      && (forall t :: 0 <= t < 6 ==> limit[t].Length == base[t].Length == perm[t].Length == 258)
      && inUse.Length == seqToUnseq.Length == 256 && minLens.Length == 6
      && mtfa.Length == MTFA_SIZE && mtfbase.Length == 16
      && selectorMtf.Length == selector.Length == MAX_SELECTORS && unzftab.Length == 256
    }

    /** All arrays are different ones. */
    ghost predicate Apart() {
      && |limit| == |base| == |perm| == 6
      && (forall t, u :: 0 <= t < 6 && 0 <= u < 6 ==> limit[t] != base[u] && limit[t] != perm[u] && base[t] != perm[u])
      && (forall t, u :: 0 <= t < u < 6 ==> limit[t] != limit[u] && base[t] != base[u] && perm[t] != perm[u])
      && Outside(seqToUnseq) && Outside(minLens) && Outside(mtfa) && Outside(mtfbase)
      && seqToUnseq != minLens && seqToUnseq != mtfa && seqToUnseq != mtfbase && minLens != mtfa && minLens != mtfbase && mtfa != mtfbase
      && Outside(selectorMtf) && Outside(selector) && Outside(unzftab)
      && selectorMtf != seqToUnseq && selectorMtf != minLens && selectorMtf != mtfa && selectorMtf != mtfbase && selectorMtf != selector
      && selector != seqToUnseq && selector != minLens && selector != mtfa && selector != mtfbase && unzftab != selectorMtf
      && unzftab != seqToUnseq && unzftab != minLens && unzftab != mtfa && unzftab != mtfbase && unzftab != selector
    }

    ghost predicate Outside(a: array<int>) {
      a !in limit && a !in base && a !in perm
    }

    ghost predicate Steady()
      reads mtfbase
    {
      Sizes() && Chunks(mtfbase[..]) && mtfbase[0] > 0
    }

    /** The reader, the sizes of the arrays and the chunks of the list are in order. */
    ghost predicate Standing()
      reads reader, mtfbase
    {
      reader.Valid() && Apart() && Steady()
    }

    /** The move-to-front list. */
    ghost function List(): seq<int>
      reads mtfa, mtfbase
    {
      if Steady() then View(mtfa[..], mtfbase[..]) else []
    }

    /** The bytes in use. */
    ghost function Marked(): (u: seq<bool>)
      reads inUse
      ensures |u| == inUse.Length
    {
      inUse[..]
    }

    /** What the fields and arrays stand for. */
    ghost function Now(): Saved
      reads `blockSize100k, `storedCRC, `blockRandomised, `origPtr, `inUse16, `nGroups, `nSelectors, `mtfs, `chosen, `len,
            `groupNo, `groupPos, `es, `N, `codes, inUse, mtfa, mtfbase
    {
      Saved(blockSize100k, storedCRC, blockRandomised, origPtr, inUse16, Marked(), nGroups, nSelectors, mtfs, chosen,
            len, groupNo, groupPos, Decoder(codes, List(), if es >= -1 then es + 1 else 0, if N >= 0 then N else 0))
    }

    ghost predicate SelectorRoom() {
      && selectorMtf != selector && selectorMtf.Length == selector.Length == MAX_SELECTORS
      && selectorMtf != seqToUnseq && selectorMtf != mtfa && selectorMtf != mtfbase
      && selector != seqToUnseq && selector != mtfa && selector != mtfbase
    }

    /** unzftab is none of the other arrays. */
    ghost predicate TallyApart() {
      && unzftab.Length == 256 && Outside(unzftab)
      && unzftab != seqToUnseq && unzftab != minLens && unzftab != mtfa && unzftab != mtfbase && unzftab != selector
    }

    /** The list is in none of the other arrays. */
    ghost predicate ListApart() {
      && Outside(mtfa) && Outside(mtfbase) && mtfa != seqToUnseq && mtfbase != seqToUnseq && mtfa != minLens && mtfbase != minLens
      && mtfa != selector && mtfbase != selector && mtfa != unzftab && mtfbase != unzftab
    }

    lemma Distinct()
      requires Standing()
      ensures TallyApart() && SelectorRoom() && ListApart()
    {
      hide Chunks;
    }

    ghost predicate MtfsHold()
      reads `received, `mtfs, selectorMtf
    {
      received == |mtfs| <= selectorMtf.Length && selectorMtf[..received] == mtfs
    }

    ghost predicate ChosenHold()
      reads `chosen, selector
    {
      |chosen| <= selector.Length && selector[..|chosen|] == chosen
    }

    /** The bytes of the column are counted. */
    ghost predicate Tallied()
      reads `column, unzftab
    {
      unzftab.Length == 256 && forall c :: 0 <= c < 256 ==> unzftab[c] == Count<int>(column, c)
    }

    ghost predicate MapHolds()
      reads `nInUse, inUse, seqToUnseq
    {
      nInUse == |Used(Marked())| && nInUse <= seqToUnseq.Length && seqToUnseq[..nInUse] == Used(Marked())
    }

    ghost function TableAt(t: int): Tables
      reads minLens, limit, base, perm
      requires Sizes() && 0 <= t < 6
    {
      Tables(limit[t][..], base[t][..], perm[t][..], minLens[t])
    }

    /** The arrays hold a table for each received set of lengths. */
    ghost predicate TablesHold(n: int)
      reads `len, minLens, limit, base, perm
      requires Sizes() && 0 <= n <= 6 && n <= |len|
    {
      forall t :: 0 <= t < n ==> TableAt(t).minLen == MinLen(len[t]) && TablesFor(TableAt(t), len[t], MaxLen(len[t]))
    }

    /** The selectors, and the tables they select. */
    ghost predicate Coded()
      reads `len, `nGroups, `chosen, minLens, limit, base, perm, selector
    {
      Sizes() && 0 <= nGroups <= 6 && nGroups <= |len| && TablesHold(nGroups) && ChosenHold()
    }

    /** Symbols are being read, with everything they are read through in place. */
    ghost predicate Symbols()
      reads `blockSize100k, `storedCRC, `blockRandomised, `origPtr, `inUse16, `nGroups, `nSelectors, `mtfs, `chosen, `len,
            `groupNo, `groupPos, `es, `N, `codes, `nInUse, `column
      reads inUse, seqToUnseq, minLens, mtfa, mtfbase, limit, base, perm, selector, unzftab
    {
      && Steady() && Decoding(Now()) && MapHolds() && Coded()
      && column == Unmapped(Used(Marked()), codes) && Tallied() && es >= -1 && N >= 1
    }

    /** The state of the specification machine in a phase. */
    ghost function StateOf(next: Phase): State
      reads `blockSize100k, `storedCRC, `blockRandomised, `origPtr, `inUse16, `nGroups, `nSelectors, `mtfs, `chosen, `len,
            `groupNo, `groupPos, `es, `N, `codes, `column, inUse, mtfa, mtfbase
    {
      match next
      case Reading(at) => Running(at, Now())
      case Written => Output(Now(), column)
      case Ended => StreamEnd(Now())
      case Broken(code) => Failed(code)
      case Strayed => Stray
    }

    /** What the arrays must hold at a label. */
    ghost predicate Filled(at: Label)
      reads `blockSize100k, `storedCRC, `blockRandomised, `origPtr, `inUse16, `nGroups, `nSelectors, `mtfs, `chosen, `len,
            `groupNo, `groupPos, `es, `N, `codes, `nInUse, `column, `received
      reads inUse, seqToUnseq, minLens, mtfa, mtfbase, limit, base, perm, selectorMtf, selector, unzftab
    {
      && (MapUsed(at) ==> MapHolds()) && (at.Selector3? ==> MtfsHold()) && (Measuring(at) ==> ChosenHold())
      && (at.MtfFirst? || at.MtfMore? ==> Symbols())
    }

    ghost predicate Agrees()
      reads this, inUse, seqToUnseq, minLens, mtfa, mtfbase, limit, base, perm, selectorMtf, selector, unzftab
    {
      && st == StateOf(phase)
      && (phase.Reading? ==> Fit(phase.at, Now()) && Filled(phase.at))
      && (phase.Written? ==> OneToNine(blockSize100k) && Tallied())
    }

    ghost predicate Valid()
      reads this, reader, inUse, seqToUnseq, minLens, mtfa, mtfbase, limit, base, perm, selectorMtf, selector, unzftab
    {
      Standing() && Agrees()
    }

    /** The arrays, and with BZ2_bzDecompressInit everything at the start, ready for the first byte. */
    constructor ()
      ensures Valid() && fresh(reader) && fresh(inUse) && fresh(seqToUnseq) && fresh(minLens) && fresh(mtfa) && fresh(mtfbase)
      ensures fresh(selectorMtf) && fresh(selector) && fresh(unzftab)
      ensures |limit| == |base| == |perm| == 6 && forall t :: 0 <= t < 6 ==> fresh(limit[t]) && fresh(base[t]) && fresh(perm[t])
      ensures reader.Pending() == [] && st == Running(Magic(1), EmptySaved()) && phase == Reading(Magic(1))
    {
      hide Valid, Standing, Steady, Chunks, Used;
      reader := new BitReader();
      inUse := new bool[256](_ => false);
      var a := NewArrays(seq(18, _ => 258) + [256, 6, MTFA_SIZE, 16, MAX_SELECTORS, MAX_SELECTORS, 256]);
      limit, base, perm := a[..6], a[6..12], a[12..18];
      seqToUnseq, minLens, mtfa, mtfbase, selectorMtf, selector, unzftab := a[18], a[19], a[20], a[21], a[22], a[23], a[24];
      blockSize100k, storedCRC, origPtr, nInUse, nGroups, nSelectors := 0, 0, 0, 0, 0, 0;
      inUse16, received, mtfs, chosen, len, blockRandomised := [], 0, [], [], [], false;
      groupNo, groupPos, es, N, column, codes := 0, 0, -1, 1, [], [];
      st, phase := Running(Magic(1), EmptySaved()), Reading(Magic(1));
      new;
      assert Marked() == seq(256, _ => false);
      Start();
    }

    /** All fields are as at the start. */
    ghost predicate Blank()
      reads this
    {
      && blockSize100k == storedCRC == origPtr == nGroups == nSelectors == groupNo == groupPos == 0 && es == -1 && N == 1
      && !blockRandomised && inUse16 == [] && mtfs == [] && chosen == [] && len == [] && codes == []
      && st == Running(Magic(1), EmptySaved()) && phase == Reading(Magic(1))
    }

    method Start()
      requires reader.Valid() && Apart() && Sizes() && Blank() && Marked() == seq(256, _ => false)
      modifies mtfa, mtfbase
      ensures Valid()
    {
      hide View, Chunks, Used, Symbols, MapHolds, Apart, Marked, List;
      InitList();
    }

    method InitList()
      requires Apart() && Sizes()
      modifies mtfa, mtfbase
      ensures Steady() && List() == Initial(256)
    {
      hide View, Chunks;
      MtfList.Init(mtfa, mtfbase);
    }

    /** What is known when a label is reached. */
    lemma Reached()
      requires Valid() && phase.Reading?
      ensures Standing() && Sizes() && inUse.Length == 256 && SelectorRoom()
      ensures st == Running(phase.at, Now()) && Fit(phase.at, Now()) && Filled(phase.at)
    {
      hide List, Used, Chunks, Fit, Symbols, MapHolds;
    }

    /** On to the next GET_BITS, or RETURN. */
    method Go(next: Phase)
      requires Standing() && st == StateOf(next)
      requires next.Reading? ==> Fit(next.at, Now()) && Filled(next.at)
      requires next.Written? ==> OneToNine(blockSize100k) && Tallied()
      modifies `phase
      ensures Valid()
    {
      hide List, Used, Chunks, Fit, Apart, Unmapped, Decoding, TablesHold, MapHolds;
      phase := next;
    }

    /** The same among the headers and while the map is received, where nothing but the list is needed. */
    method GoEarly(next: Phase)
      requires Standing() && st == StateOf(next) && !next.Written? && (next.Reading? ==> Fit(next.at, Now()) && !MapUsed(next.at))
      modifies `phase
      ensures Valid() && st == old(st)
    {
      hide List, Used, Chunks, Fit, Apart, Symbols, MapHolds, MtfsHold, ChosenHold;
      phase := next;
    }

    // ----- the stream and block headers -----

    method TakeMagic(k: int, v: nat)
      requires Valid() && st.Running? && phase == Reading(Magic(k)) && v < 256
      modifies this
      ensures Valid() && st == Step(Magic(k), old(st).s, v)
    {
      hide Filled, MtfsHold, ChosenHold, Tallied, Standing, Steady, List, Marked, Fit, Valid, Sizes, View, Used, Chunks, Apart, Agrees, MapHolds, Symbols, UndoSelectors,
           NextGroup, LengthRead, CodingCheck, MtfCheck;
      Reached();
      FitHeader(Magic(k), st.s, v);
      st := Step(Magic(k), st.s, v);
      if k <= 3 {
        GoEarly(if v == MagicByte(k) then Reading(Magic(k + 1)) else Broken(DATA_ERROR_MAGIC));
      } else {
        if 0x31 <= v <= 0x39 { blockSize100k := v - 0x30; }
        GoEarly(if 0x31 <= v <= 0x39 then Reading(BlkHdr(1)) else Broken(DATA_ERROR_MAGIC));
      }
    }

    method TakeBlkHdr(k: int, v: nat)
      requires Valid() && st.Running? && phase == Reading(BlkHdr(k)) && v < 256
      modifies this
      ensures Valid() && st == Step(BlkHdr(k), old(st).s, v)
    {
      hide Step, Filled, MtfsHold, ChosenHold, Tallied, Standing, Steady, List, Marked, Fit, Valid, Sizes, View, Used, Chunks, Apart, Agrees, MapHolds, Symbols, UndoSelectors,
           NextGroup, LengthRead, CodingCheck, MtfCheck;
      Reached();
      FitHeader(BlkHdr(k), st.s, v);
      HeaderCount(st.at, st.s);
      StepBlkHdr(k, Now(), v);
      st := Step(BlkHdr(k), st.s, v);
      var next := Reading(BlkHdr(k + 1));
      if k == 1 && v == EndByte(1) {
        next := Reading(EndHdr(2));
      } else if v != BlockByte(k) {
        next := Broken(DATA_ERROR);
      } else if k == 6 {
        storedCRC := 0;
        next := Reading(BCrc(1));
      }
      GoEarly(next);
    }

    method TakeBCrc(k: int, v: nat)
      requires Valid() && st.Running? && phase == Reading(BCrc(k)) && v < 256
      modifies this
      ensures Valid() && st == Step(BCrc(k), old(st).s, v)
    {
      hide Step, Filled, MtfsHold, ChosenHold, Tallied, Standing, Steady, List, Marked, Fit, Valid, Sizes, View, Used, Chunks, Apart, Agrees, MapHolds, Symbols, UndoSelectors,
           NextGroup, LengthRead, CodingCheck, MtfCheck;
      Reached();
      FitHeader(BCrc(k), st.s, v);
      HeaderCount(st.at, st.s);
      StepBCrc(k, Now(), v);
      st := Step(BCrc(k), st.s, v);
      storedCRC := storedCRC * 256 + v;
      GoEarly(if k < 4 then Reading(BCrc(k + 1)) else Reading(RandBit));
    }

    method TakeRandBit(v: nat)
      requires Valid() && st.Running? && phase == Reading(RandBit) && v < 256
      modifies this
      ensures Valid() && st == Step(RandBit, old(st).s, v)
    {
      hide Step, Filled, MtfsHold, ChosenHold, Tallied, Standing, Steady, List, Marked, Fit, Valid, Sizes, View, Used, Chunks, Apart, Agrees, MapHolds, Symbols, UndoSelectors,
           NextGroup, LengthRead, CodingCheck, MtfCheck;
      Reached();
      FitHeader(RandBit, st.s, v);
      StepRandBit(Now(), v);
      st := Step(RandBit, st.s, v);
      blockRandomised := v == 1;
      origPtr := 0;
      GoEarly(Reading(OrigPtr(1)));
    }

    /** The bytes of origPtr; behind the last the mapping table begins. */
    method TakeOrigPtr(k: int, v: nat)
      requires Valid() && st.Running? && phase == Reading(OrigPtr(k)) && v < 256
      modifies this, inUse
      ensures Valid() && st == Step(OrigPtr(k), old(st).s, v)
    {
      hide Step, Filled, MtfsHold, ChosenHold, Tallied, Standing, Steady, List, Marked, Fit, Valid, Sizes, View, Used, Chunks, Apart, Agrees, MapHolds, Symbols, UndoSelectors,
           NextGroup, LengthRead, CodingCheck, MtfCheck;
      Reached();
      FitHeader(OrigPtr(k), st.s, v);
      HeaderCount(st.at, st.s);
      StepOrigPtr(k, Now(), v);
      st := Step(OrigPtr(k), st.s, v);
      origPtr := origPtr * 256 + v;
      var next := Reading(OrigPtr(k + 1));
      if k >= 3 {
        if origPtr > 10 + 100000 * blockSize100k {
          next := Broken(DATA_ERROR);
        } else {
          next := ClearMarks();
        }
      }
      GoEarly(next);
    }

    /** No byte is known to be in use. */
    method ClearMarks() returns (next: Phase)
      requires inUse.Length == 256
      modifies `inUse16, inUse
      ensures Now() == old(Now()).(inUse16 := [], inUse := seq(256, _ => false)) && next == Reading(Mapping1(0))
    {
      hide List;
      inUse16 := [];
      forall i | 0 <= i < 256 { inUse[i] := false; }
      assert Marked() == seq(256, _ => false);
      next := Reading(Mapping1(0));
    }

    method TakeEndHdr(k: int, v: nat)
      requires Valid() && st.Running? && phase == Reading(EndHdr(k)) && v < 256
      modifies this
      ensures Valid() && st == Step(EndHdr(k), old(st).s, v)
    {
      hide Step, Filled, MtfsHold, ChosenHold, Tallied, Standing, Steady, List, Marked, Fit, Valid, Sizes, View, Used, Chunks, Apart, Agrees, MapHolds, Symbols, UndoSelectors,
           NextGroup, LengthRead, CodingCheck, MtfCheck;
      Reached();
      FitHeader(EndHdr(k), st.s, v);
      HeaderCount(st.at, st.s);
      StepEndHdr(k, Now(), v);
      st := Step(EndHdr(k), st.s, v);
      if v == EndByte(k) && k == 6 { storedCRC := 0; }
      GoEarly(if v != EndByte(k) then Broken(DATA_ERROR) else if k < 6 then Reading(EndHdr(k + 1)) else Reading(CCrc(1)));
    }

    method TakeCCrc(k: int, v: nat)
      requires Valid() && st.Running? && phase == Reading(CCrc(k)) && v < 256
      modifies this
      ensures Valid() && st == Step(CCrc(k), old(st).s, v)
    {
      hide Step, Filled, MtfsHold, ChosenHold, Tallied, Standing, Steady, List, Marked, Fit, Valid, Sizes, View, Used, Chunks, Apart, Agrees, MapHolds, Symbols, UndoSelectors,
           NextGroup, LengthRead, CodingCheck, MtfCheck;
      Reached();
      FitHeader(CCrc(k), st.s, v);
      HeaderCount(st.at, st.s);
      StepCCrc(k, Now(), v);
      st := Step(CCrc(k), st.s, v);
      storedCRC := storedCRC * 256 + v;
      GoEarly(if k < 4 then Reading(CCrc(k + 1)) else Ended);
    }

    // ----- the mapping table -----

    /** To the next group in use; behind the last, the map is made. */
    method ToNextGroup(i0: nat)
      requires Standing() && OneToNine(blockSize100k) && |inUse16| == 16 && i0 <= 16 && st == NextGroup(Now(), i0)
      modifies `phase, `nInUse, seqToUnseq
      ensures Valid() && st == old(st)
    {
      hide List, Used, Chunks, Agrees, Apart, Symbols;
      ghost var s := Now();
      var i := i0;
      while i < 16 && !inUse16[i]
        invariant i <= 16 && st == NextGroup(s, i)
      {
        GroupsNext(s, i);
        i := i + 1;
      }
      if i == 16 { nInUse := MakeMapsD(inUse, seqToUnseq); }
      Go(if i < 16 then Reading(Mapping2(i, 0)) else if nInUse == 0 then Broken(DATA_ERROR) else Reading(Selector1));
    }

    method TakeMapping1(i: int, v: nat)
      requires Valid() && st.Running? && phase == Reading(Mapping1(i))
      modifies this, seqToUnseq
      ensures Valid() && st == Step(Mapping1(i), old(st).s, v)
    {
      hide Filled, MtfsHold, ChosenHold, Tallied, Standing, Steady, List, Marked, MapHolds, NextGroup, Valid, Sizes, View, Used, Chunks, Apart, Agrees, Symbols, LengthRead, CodingCheck, MtfCheck;
      Reached();
      FitMapping(Mapping1(i), st.s, v);
      st := Step(Mapping1(i), st.s, v);
      inUse16 := inUse16 + [v == 1];
      if |inUse16| < 16 { GoEarly(Reading(Mapping1(|inUse16|))); } else { ToNextGroup(0); }
    }

    method TakeMapping2(i: int, j: int, v: nat)
      requires Valid() && st.Running? && phase == Reading(Mapping2(i, j))
      modifies this, inUse, seqToUnseq
      ensures Valid() && st == Step(Mapping2(i, j), old(st).s, v)
    {
      hide Filled, MtfsHold, ChosenHold, Tallied, Standing, Steady, List, Marked, MapHolds, NextGroup, Valid, Sizes, View, Used, Chunks, Apart, Agrees, Symbols, LengthRead, CodingCheck, MtfCheck;
      Reached();
      FitMapping(Mapping2(i, j), st.s, v);
      st := Step(Mapping2(i, j), st.s, v);
      if v == 1 { Mark(i * 16 + j); }
      if j < 15 { GoEarly(Reading(Mapping2(i, j + 1))); } else { ToNextGroup(i + 1); }
    }

    method Mark(c: int)
      requires 0 <= c < inUse.Length
      modifies inUse
      ensures Marked() == old(Marked())[c := true]
    {
      ghost var u := inUse[..];
      inUse[c] := true;
      assert inUse[..] == u[c := true];
    }

    // ----- the selectors -----

    method TakeSelector1(v: nat)
      requires Valid() && st.Running? && phase == Reading(Selector1)
      modifies this
      ensures Valid() && st == Step(Selector1, old(st).s, v)
    {
      hide Standing, Steady, List, Marked, Fit, MapHolds, NextGroup, UndoSelectors, Valid, Sizes, View, Used, Chunks, Apart, Agrees, Symbols, LengthRead, CodingCheck, MtfCheck;
      Reached();
      FitSelector(Selector1, st.s, v);
      st := Step(Selector1, st.s, v);
      if 2 <= v <= 6 { nGroups := v; }
      Go(if v < 2 || v > 6 then Broken(DATA_ERROR) else Reading(Selector2));
    }

    method TakeSelector2(v: nat)
      requires Valid() && st.Running? && phase == Reading(Selector2) && v < 0x8000
      modifies this
      ensures Valid() && st == Step(Selector2, old(st).s, v)
    {
      hide Step, ChosenHold, Tallied, Standing, Steady, List, Marked, Fit, MapHolds, NextGroup, UndoSelectors, Valid, Sizes, View, Used, Chunks, Apart, Agrees, Symbols, LengthRead, CodingCheck, MtfCheck;
      Reached();
      FitSelector(Selector2, st.s, v);
      StepSelector2(Now(), v);
      st := Step(Selector2, st.s, v);
      if v >= 1 {
        ExpectSelectors(v);
      }
      Go(if v < 1 then Broken(DATA_ERROR) else Reading(Selector3(0)));
    }

    method ExpectSelectors(n: Int32)
      modifies `nSelectors, `received, `mtfs
      ensures Now() == old(Now()).(nSelectors := n, selectorMtf := []) && MtfsHold()
    {
      hide List, Marked;
      nSelectors, received, mtfs := n, 0, [];
    }

    /** The end of a unary value, or one more of its bits. */
    method TakeSelector3(j: int, v: nat)
      requires Valid() && st.Running? && phase == Reading(Selector3(j))
      modifies this, selectorMtf, selector
      ensures Valid() && st == Step(Selector3(j), old(st).s, v)
    {
      hide Step, SelectorSaved, Tallied, SymbolStrays, Standing, Steady, List, Marked, Fit, MapHolds, NextGroup, UndoSelectors, Valid, Sizes, View, Used, Chunks, Apart, Agrees, Symbols, LengthRead, CodingCheck, MtfCheck,
           CodeStrays;
      Reached();
      BlockSizeKnown(Selector3(j), Now());
      FitSelector(Selector3(j), st.s, v);
      StepSelector3(j, Now(), v);
      st := Step(Selector3(j), st.s, v);
      if v != 0 {
        Go(if j + 1 >= nGroups then Broken(DATA_ERROR) else Reading(Selector3(j + 1)));
      } else if received >= MAX_SELECTORS {
        Go(Strayed);
      } else {
        SelectorDone(j);
      }
    }

    /** A value is complete. */
    method SelectorDone(j: int)
      requires Standing() && OneToNine(blockSize100k) && MapHolds() && Fit(Selector3(j), Now()) && MtfsHold() && received < MAX_SELECTORS
      requires st == Step(Selector3(j), Now(), 0)
      modifies `phase, `received, `mtfs, `chosen, `len, selectorMtf, selector
      ensures Valid() && st == old(st)
    {
      hide Step, Standing, List, Marked, Fit, MapHolds, UndoSelectors, Valid, Sizes, Used, Chunks, Apart, Symbols, Below;
      ghost var s := Now();
      Distinct();
      SelectorCount(j, s);
      FitSelector(Selector3(j), s, 0);
      StepSelector3(j, s, 0);
      var next := SelectorRead(j);
      Go(next);
    }

    /** One more value; behind the last the selectors are made. */
    method SelectorRead(j: int) returns (next: Phase)
      requires SelectorRoom() && nGroups >= 0 && MtfsHold() && received < MAX_SELECTORS && Below(mtfs + [j], nGroups)
      modifies `received, `mtfs, `chosen, `len, selectorMtf, selector
      ensures Now() == SelectorSaved(old(Now()), j)
      ensures next == Reading(if |mtfs| < nSelectors then Selector3(0) else Coding1(0)) && |mtfs| == |old(mtfs)| + 1
      ensures if next.at.Selector3? then MtfsHold() else ChosenHold()
    {
      hide List, Marked, UndoSelectors, Steady, Below;
      selectorMtf[received] := j;
      received := received + 1;
      assert selectorMtf[..received] == mtfs + [j];
      mtfs := mtfs + [j];
      next := Reading(Selector3(0));
      if received >= nSelectors {
        UndoMtf(selectorMtf, selector, received, nGroups);
        chosen := UndoSelectors(mtfs, Initial(nGroups));
        len := [];
        next := Reading(Coding1(0));
      }
    }

    // ----- the code lengths -----

    /** Tables are being received, and there is one to come. */
    ghost predicate Receiving()
      reads `blockSize100k, `storedCRC, `blockRandomised, `origPtr, `inUse16, `nGroups, `nSelectors, `mtfs, `chosen, `len,
            `groupNo, `groupPos, `es, `N, `codes, `nInUse
      reads reader, inUse, seqToUnseq, mtfa, mtfbase, selector
    {
      Standing() && OneToNine(blockSize100k) && Coding(Now()) && |len| < nGroups && MapHolds() && ChosenHold()
    }

    method CheckLength(lens: seq<int>, curr: int)
      requires Receiving() && Partial(lens, Now()) && st == CodingCheck(lens, curr, Now())
      modifies `phase
      ensures Valid() && st == old(st)
    {
      hide Standing, Steady, List, Marked, View, Used, Chunks, Apart, Agrees, Coding, Symbols;
      Go(if curr < 1 || curr > LONGEST then Broken(DATA_ERROR) else Reading(Coding2(lens, curr)));
    }

    method TakeCoding1(t: int, v: nat)
      requires Valid() && st.Running? && phase == Reading(Coding1(t))
      modifies this
      ensures Valid() && st == Step(Coding1(t), old(st).s, v)
    {
      hide Standing, Steady, List, Marked, Valid, Sizes, View, Used, Chunks, Apart, Agrees, CodingCheck, Symbols, MapHolds, UndoSelectors, NextGroup,
           MtfCheck, Decoding;
      Reached();
      st := Step(Coding1(t), st.s, v);
      CheckLength([], v);
    }

    method TakeCoding2(lens: seq<int>, curr: int, v: nat)
      requires Valid() && st.Running? && phase == Reading(Coding2(lens, curr))
      modifies this, minLens, mtfa, mtfbase, limit, base, perm, unzftab
      ensures Valid() && st == Step(Coding2(lens, curr), old(st).s, v)
    {
      hide Standing, Steady, List, Marked, Valid, Sizes, View, Used, Chunks, Apart, Agrees, LengthRead, Coding, Symbols, MapHolds, UndoSelectors, NextGroup,
           MtfCheck, Decoding;
      Reached();
      st := Step(Coding2(lens, curr), st.s, v);
      if v == 0 { LengthDone(lens + [curr], curr); } else { Go(Reading(Coding3(lens, curr))); }
    }

    method TakeCoding3(lens: seq<int>, curr: int, v: nat)
      requires Valid() && st.Running? && phase == Reading(Coding3(lens, curr))
      modifies this
      ensures Valid() && st == Step(Coding3(lens, curr), old(st).s, v)
    {
      hide Standing, Steady, List, Marked, Valid, Sizes, View, Used, Chunks, Apart, Agrees, CodingCheck, Coding, Symbols, MapHolds, UndoSelectors, NextGroup,
           MtfCheck, Decoding;
      Reached();
      st := Step(Coding3(lens, curr), st.s, v);
      CheckLength(lens, if v == 0 then curr + 1 else curr - 1);
    }

    /** One length is complete; with the last one of the last table the decoding tables are made. */
    method LengthDone(lens: seq<int>, curr: int)
      requires Receiving() && Lengths(lens) && |lens| <= |Used(Marked())| + 2 && st == LengthRead(lens, curr, Now())
      modifies this, minLens, mtfa, mtfbase, limit, base, perm, unzftab
      ensures Valid() && st == old(st)
    {
      hide Standing, Steady, List, Marked, View, Used, Chunks, Apart, Agrees, GetMtf, TablesRead, CodingCheck, Symbols;
      if |lens| < nInUse + 2 {
        CheckLength(lens, curr);
      } else {
        len := len + [lens];
        if |len| < nGroups { Go(Reading(Coding1(|len|))); } else { BeginSymbols(); }
      }
    }

    /** One decoding table. */
    method CreateTable(t: nat)
      requires Apart() && Steady() && Coding(Now()) && t < nGroups <= 6 && |len| == nGroups && TablesHold(t)
      modifies minLens, limit[t], base[t], perm[t]
      ensures TablesHold(t + 1)
    {
      hide View, Used, Chunks, TablesFor, MinLen, MaxLen, Marked, List;
      assert Measured(len[t], |Used(Marked())| + 2);
      var m := BuildTable(limit[t], base[t], perm[t], len[t]);
      minLens[t] := m;
    }

    /** The decoding tables, from the lengths. */
    method CreateTables()
      requires Apart() && Steady() && Coding(Now()) && |len| == nGroups
      modifies minLens, limit, base, perm
      ensures TablesHold(nGroups)
    {
      hide View, Used, Chunks, TablesFor, MinLen, MaxLen, Marked, List, TablesHold;
      NoTables();
      for t := 0 to nGroups
        invariant TablesHold(t)
      {
        CreateTable(t);
      }
    }

    lemma NoTables()
      requires Sizes()
      ensures TablesHold(0)
    {
    }

    method ClearCounters()
      modifies `groupNo, `groupPos, `column, `codes, `es, `N
      ensures groupNo == -1 && groupPos == 0 && column == [] && codes == [] && es == -1 && N == 1
    {
      groupNo, groupPos, column, codes, es, N := -1, 0, [], [], -1, 1;
    }

    method ClearTally()
      requires unzftab.Length == 256
      modifies unzftab
      ensures forall c :: 0 <= c < 256 ==> unzftab[c] == 0
    {
      for i := 0 to 256
        invariant forall c :: 0 <= c < i ==> unzftab[c] == 0
      {
        unzftab[i] := 0;
      }
    }

    /** The list and the counters are set up. */
    method ClearSymbols()
      requires Standing()
      modifies `groupNo, `groupPos, `column, `codes, `es, `N, mtfa, mtfbase, unzftab
      ensures Standing() && Now() == TablesRead(old(Now())) && column == [] && codes == [] && Tallied() && es == -1 && N == 1
    {
      hide List, Apart, Marked, Chunks;
      ClearCounters();
      ClearTally();
      InitList();
    }

    /** The tables are made, everything is set up, and the first code is awaited. */
    method BeginSymbols()
      requires Standing() && OneToNine(blockSize100k) && Coding(Now()) && |len| == nGroups && MapHolds() && ChosenHold()
      requires st == GetMtf(TablesRead(Now()))
      modifies this, minLens, mtfa, mtfbase, limit, base, perm, unzftab
      ensures Valid() && st == old(st)
    {
      hide List, Marked, View, Used, Chunks, TablesFor, MinLen, MaxLen, GetMtf, Agrees, Closed;
      CreateTables();
      ClearSymbols();
      ClosedStart(nInUse);
      NextCode();
    }

    // ----- the symbols -----

    /** The start of GET_MTF_VAL. */
    method NextCode()
      requires Standing() && Symbols() && OneToNine(blockSize100k) && st == GetMtf(Now())
      modifies `phase, `groupNo, `groupPos
      ensures Valid() && st == old(st)
    {
      hide List, Marked, View, Used, Chunks, Apart, Agrees, TablesFor, MinLen, MaxLen, Decoding, Unmapped, Standing, MapHolds, Tallied;
      FitGetMtf(Now());
      var next := Broken(DATA_ERROR);
      ghost var s := Now();
      if groupPos > 0 || groupNo + 1 < nSelectors {
        CountSymbol();
        next := Reading(MtfFirst(minLens[selector[groupNo]]));
      }
      Go(next);
    }

    /** One symbol of the group, or of the next. */
    method CountSymbol()
      requires groupNo < 32768 && groupPos >= 0
      modifies `groupNo, `groupPos
      ensures groupNo == (if old(groupPos) == 0 then old(groupNo) + 1 else old(groupNo))
      ensures groupPos == (if old(groupPos) == 0 then G_SIZE else old(groupPos)) - 1
      ensures Now() == old(Now()).(groupNo := groupNo, groupPos := groupPos)
    {
      hide List, Marked;
      if groupPos == 0 {
        groupNo := groupNo + 1;
        groupPos := G_SIZE;
      }
      groupPos := groupPos - 1;
    }

    /** One round of the loop of GET_MTF_VAL, on the arrays. */
    method TakeCode(zn: Int32, zvec: Int32)
      requires Standing() && Symbols() && OneToNine(blockSize100k) && groupNo >= 0
      requires Sought(CurrentLengths(Now()), zn, zvec) && st == Checked(zn, zvec, Now())
      modifies this, mtfa, mtfbase, unzftab
      ensures Valid() && st == old(st)
    {
      hide List, Marked, View, Used, Chunks, Apart, Agrees, TablesFor, MinLen, MaxLen, Unmapped, MapHolds, Symbol, SymbolStrays, Closed, FirstCode, TablesOf, Lookup, Tallied;
      DecodingLengths(Now());
      var t := selector[groupNo];
      ArraysAlike(t, zn, zvec);
      LookupArrays(TableAt(t), zn, zvec);
      if zn > LONGEST {
        Go(Broken(DATA_ERROR));
      } else if zvec <= limit[t][zn] {
        var k: Int32 := zvec - base[t][zn];
        if k < 0 || k >= 258 { Go(Broken(DATA_ERROR)); } else { TakeSymbol(perm[t][k]); }
      } else {
        Go(Reading(MtfMore(zn + 1, zvec)));
      }
    }

    /** What the arrays answer is what any table for the lengths answers. */
    lemma ArraysAlike(t: int, zn: int, zvec: int)
      requires Standing() && Symbols() && groupNo >= 0 && Sought(CurrentLengths(Now()), zn, zvec) && t == selector[groupNo]
      ensures 0 <= t < 6 && TableAt(t).minLen >= 1 && Lookup(TableAt(t), zn, zvec) == Lookup(CurrentTable(Now()), zn, zvec)
      ensures zn <= LONGEST && zvec <= limit[t][zn] ==> -0x8000_0000 <= zvec - base[t][zn] <= INT32_MAX
      ensures Lookup(TableAt(t), zn, zvec).Longer? ==> zn <= LONGEST && Sought(CurrentLengths(Now()), zn + 1, 2 * zvec)
      ensures Lookup(TableAt(t), zn, zvec).Sym? ==> 0 <= Lookup(TableAt(t), zn, zvec).sym <= nInUse + 1
    {
      hide List, Marked, View, Used, Chunks, Apart, TablesFor, MinLen, MaxLen, Unmapped, Closed, FirstCode, Lookup, Standing;
      DecodingLengths(Now());
      var lens := CurrentLengths(Now());
      TablesOfLengths(lens);
      UsedFew(Marked());
      LookupAlike(TableAt(t), TablesOf(lens), lens, zn, zvec);
      if zn <= LONGEST { LookupRange(TableAt(t), lens, zn, zvec); }
    }

    /** The front of the list is the code of a byte in use. */
    lemma Front()
      requires Standing() && Symbols()
      ensures mtfbase.Length == 16 && 0 <= mtfbase[0] < mtfa.Length == MTFA_SIZE && seqToUnseq.Length == inUse.Length == 256 && |List()| == 256 && mtfa[mtfbase[0]] == List()[0]
      ensures 0 <= List()[0] < nInUse <= 256 && 0 <= seqToUnseq[List()[0]] < 256
      ensures seqToUnseq[List()[0]] == Used(Marked())[List()[0]]
      ensures unzftab.Length == 256 && unzftab[seqToUnseq[List()[0]]] == Tally(Now())
    {
      hide View, TablesHold, Unmapped, Apart, Decoding, Closed, Used, Chunks;
      DecodingFacts(Now());
      ViewAt(mtfa[..], mtfbase[..], 0, 0);
      UsedFew(Marked());
    }

    /** The end of a run: its bytes are written, as far as the block can take them. */
    method FlushRun() returns (ok: bool)
      requires Standing() && Symbols() && OneToNine(blockSize100k) && !(es >= 0 && Tally(Now()) + es + 1 > INT32_MAX)
      modifies `column, `codes, `es, `N, unzftab
      ensures Standing() && (ok <==> |old(codes)| + old(es + 1) <= 100000 * blockSize100k)
      ensures ok ==> |List()| == 256 && es == -1 && Symbols() && Now() == old(Now()).(mtf := Flush(old(Now().mtf)))
    {
      hide List, Marked, View, Used, Chunks, Apart, Standing, Coded, Decoding, Closed, Unmapped, Tally, Steady, Sizes, Tallied, MapHolds;
      Front();
      Distinct();
      ghost var s, n := Now(), es + 1;
      FlushFits(s);
      var uc := seqToUnseq[mtfa[mtfbase[0]]];
      ok := true;
      if es >= 0 {
        es := es + 1;
        ok := AddRun(uc);
      }
      if ok { RunWritten(n); }
    }

    /** The run is in the column; the next one starts from nothing. */
    method RunWritten(ghost n: nat)
      requires |List()| > 0
      modifies `codes, `es, `N
      ensures codes == old(codes) + Repeat(List()[0], n) && es == -1 && N == 1
      ensures n == old(Now().mtf.run) ==> Now() == old(Now()).(mtf := Flush(old(Now()).mtf))
    {
      hide List, Marked;
      codes, es, N := codes + Repeat(List()[0], n), -1, 1;
    }

    /** es bytes uc are counted and written. */
    method AddRun(uc: Byte) returns (ok: bool)
      requires Tallied() && es >= 0 && unzftab[uc] + es <= INT32_MAX && |column| <= 100000 * blockSize100k
      modifies `column, `es, unzftab
      ensures ok <==> |old(column)| + old(es) <= 100000 * blockSize100k
      ensures ok ==> es == 0 && column == old(column) + Repeat(uc, old(es)) && Tallied()
    {
      ghost var c0, n := column, es;
      var nblockMAX := 100000 * blockSize100k;
      unzftab[uc] := unzftab[uc] + es;
      while es > 0
        invariant 0 <= es <= n && column == c0 + Repeat(uc, n - es) && |column| <= nblockMAX
        modifies `column, `es
        decreases es
      {
        if |column| >= nblockMAX { return false; }
        column := column + [uc];
        es := es - 1;
      }
      TallyRun(c0, uc, n);
      return true;
    }

    /** A move-to-front value: the byte goes into the block, and its code to the front of the list. */
    method MoveOne(nn: nat)
      requires Standing() && Symbols() && es == -1 && nn < nInUse && |column| < 100000 * blockSize100k <= 900000
      requires |List()| == 256
      modifies `column, `codes, mtfa, mtfbase, unzftab
      ensures Standing() && Symbols() && es == -1
      ensures Now() == old(Now()).(mtf := Moved(old(Now().mtf), nn))
    {
      hide List, View, Used, Chunks, Apart, Decoding, Closed, Unmapped, Marked, Coded, Tallied, Tally, Steady, MapHolds;
      ghost var s, d := Now(), Now().mtf;
      Distinct();
      MapRoom();
      MoveFits(s, nn);
      var uc := FetchFront(nn);
      AddByte(seqToUnseq[uc]);
      codes := codes + [uc];
      assert Now() == s.(mtf := Moved(d, nn));
    }

    lemma MapRoom()
      requires Symbols()
      ensures nInUse == |Used(Marked())| <= 256 == seqToUnseq.Length == inUse.Length && seqToUnseq[..nInUse] == Used(Marked())
    {
      hide List, Marked, Used, Decoding, Closed, Coded, Unmapped, Tallied;
    }

    /** The entry moves to the front of the list. */
    method FetchFront(nn: nat) returns (uc: int)
      requires Apart() && Steady() && nn < 256 <= |List()|
      modifies mtfa, mtfbase
      ensures Steady() && uc == old(List()[nn]) && List() == ToFront(old(List()), nn)
    {
      hide View, Chunks;
      uc := MoveToFront(mtfa, mtfbase, nn);
    }

    /** One byte is counted and written. */
    method AddByte(c: Byte)
      requires Tallied() && |column| < 900000
      modifies `column, unzftab
      ensures Tallied() && column == old(column) + [c]
    {
      ghost var l := column;
      CountAtMost(column, c);
      var n: Int32 := unzftab[c] + 1;
      unzftab[c] := n;
      column := column + [c];
      TallyRun(l, c, 1);
      assert Repeat(c, 1) == [c];
    }

    /** A symbol other than a run digit, once the run before it is written. */
    method TakeOther(sym: int)
      requires Standing() && Symbols() && OneToNine(blockSize100k) && es == -1 && |List()| == 256 && 2 <= sym <= nInUse + 1
      requires st == AfterRun(sym, Now())
      modifies this, mtfa, mtfbase, unzftab
      ensures Valid() && st == old(st)
    {
      hide List, Marked, View, Used, Chunks, Apart, Agrees, Decoding, TablesHold, Unmapped, GetMtf, Standing;
      DecodingFacts(Now());
      if sym == nInUse + 1 {
        Go(if origPtr < 0 || origPtr >= |column| then Broken(DATA_ERROR) else Written);
      } else if |column| >= 100000 * blockSize100k {
        Go(Broken(DATA_ERROR));
      } else {
        MoveOne(sym - 1);
        NextCode();
      }
    }

    /** A run digit. */
    method TakeDigit(sym: int)
      requires Standing() && Symbols() && OneToNine(blockSize100k) && (sym == RUNA || sym == RUNB) && |List()| > 0
      requires SymbolStrays(sym, Now()) ==> st == Stray
      requires !SymbolStrays(sym, Now()) ==> st == GetMtf(Now().(mtf := Decode1(Now().mtf, sym)))
      modifies `es, `N, `phase, `groupNo, `groupPos
      ensures Valid() && st == old(st)
    {
      hide List, Marked, View, Used, Chunks, Apart, Agrees, Decoding, TablesHold, Unmapped, GetMtf, Standing, Steady, Symbol, Tallied, Coded, MapHolds;
      ghost var s, d := Now(), Now().mtf;
      var step := if sym == RUNA then N else 2 * N;
      if es + step > INT32_MAX || 2 * N > INT32_MAX {
        Go(Strayed);
      } else {
        DecodingFacts(s);
        DecodingMtf(s, Decode1(d, sym));
        es, N := es + step, 2 * N;
        assert Now() == s.(mtf := Decode1(d, sym));
        NextCode();
      }
    }

    /** unzftab cannot take the run. */
    method RunTooLong() returns (r: bool)
      requires Standing() && Symbols()
      ensures r <==> es >= 0 && Tally(Now()) + es + 1 > INT32_MAX
    {
      hide List, Marked, View, Used, Chunks, Apart, Decoding, TablesHold, Unmapped, Standing, Steady, Closed;
      Front();
      r := es >= 0 && unzftab[seqToUnseq[mtfa[mtfbase[0]]]] + es + 1 > INT32_MAX;
    }

    /** A symbol has been read. */
    method TakeSymbol(sym: int)
      requires Standing() && Symbols() && OneToNine(blockSize100k) && 0 <= sym <= nInUse + 1 && st == Received(sym, Now())
      modifies this, mtfa, mtfbase, unzftab
      ensures Valid() && st == old(st)
    {
      hide List, Marked, View, Used, Chunks, Apart, Agrees, Decoding, TablesHold, Unmapped, GetMtf, Standing, Flush, AfterRun, Steady, Closed, Tally, Tallied,
           ChosenHold;
      DecodingFacts(Now());
      SymbolCases(sym, Now());
      if sym == RUNA || sym == RUNB {
        TakeDigit(sym);
      } else {
        var long := RunTooLong();
        if long {
          Go(Strayed);
        } else {
          var ok := FlushRun();
          if ok { TakeOther(sym); } else { Go(Broken(DATA_ERROR)); }
        }
      }
    }

    // ----- the machine -----

    method TakeFirst(zn: int, v: nat)
      requires Valid() && st.Running? && phase == Reading(MtfFirst(zn)) && v < Pow2(Need(phase.at))
      modifies this, mtfa, mtfbase, unzftab
      ensures Valid() && st == Step(MtfFirst(zn), old(st).s, v)
    {
      hide List, Marked, View, Used, Chunks, Apart, Agrees, Decoding, Symbols, GetMtf, Standing, Steady, Valid, Checked, MapHolds, ChosenHold, Pow2, Fit, MtfCheck, CodeStrays;
      Reached();
      FirstSought(Now(), zn, v);
      NumberSmall(zn, v);
      StepMtf(zn, 0, Now(), v);
      st := Checked(zn, v, Now());
      TakeCode(zn, v);
    }

    method TakeMore(zn: int, zvec: int, v: nat)
      requires Valid() && st.Running? && phase == Reading(MtfMore(zn, zvec)) && v < 2
      modifies this, mtfa, mtfbase, unzftab
      ensures Valid() && st == Step(MtfMore(zn, zvec), old(st).s, v)
    {
      hide List, Marked, View, Used, Chunks, Apart, Agrees, Decoding, Symbols, GetMtf, Standing, Steady, Valid, Checked, MapHolds, ChosenHold, Pow2, Fit, MtfCheck, CodeStrays;
      Reached();
      MoreSought(Now(), zn, zvec, v);
      NumberSmall(zn, 2 * zvec + v);
      StepMtf(zn, zvec, Now(), v);
      st := Checked(zn, 2 * zvec + v, Now());
      TakeCode(zn, 2 * zvec + v);
    }

    /** What follows a GET_BITS that has returned v. */
    method Take(v: nat)
      requires Valid() && st.Running? && phase.Reading? && v < Pow2(Need(phase.at))
      modifies this, inUse, seqToUnseq, minLens, mtfa, mtfbase, limit, base, perm, selectorMtf, selector, unzftab
      ensures Valid() && st == Step(old(phase.at), old(st).s, v)
    {
      hide Valid, Step, Pow2;
      EightBits();
      match phase.at {
        case Magic(k) => TakeMagic(k, v);
        case BlkHdr(k) => TakeBlkHdr(k, v);
        case BCrc(k) => TakeBCrc(k, v);
        case RandBit => TakeRandBit(v);
        case OrigPtr(k) => TakeOrigPtr(k, v);
        case Mapping1(i) => TakeMapping1(i, v);
        case Mapping2(i, j) => TakeMapping2(i, j, v);
        case Selector1 => TakeSelector1(v);
        case Selector2 => TakeSelector2(v);
        case Selector3(j) => TakeSelector3(j, v);
        case Coding1(t) => TakeCoding1(t, v);
        case Coding2(lens, curr) => TakeCoding2(lens, curr, v);
        case Coding3(lens, curr) => TakeCoding3(lens, curr, v);
        case MtfFirst(zn) => TakeFirst(zn, v);
        case MtfMore(zn, zvec) => TakeMore(zn, zvec, v);
        case EndHdr(k) => TakeEndHdr(k, v);
        case CCrc(k) => TakeCCrc(k, v);
      }
    }

    /** Phase and state go together. */
    lemma Phases()
      requires Valid()
      ensures reader.Valid()
      ensures match phase
              case Reading(at) => st.Running? && st.at == at
              case Written =>
                && st.Output? && st.column == column && st.s.origPtr == origPtr
                && st.s.blockSize100k == blockSize100k && OneToNine(blockSize100k) && Tallied() && st.s.storedCRC == storedCRC && st.s.blockRandomised == blockRandomised
              case Ended => st.StreamEnd? && st.s.storedCRC == storedCRC
              case Broken(code) => st == Failed(code)
              case Strayed => st == Stray
    {
      hide List, Marked, View, Used, Chunks, Apart, Fit, Filled;
    }

    /**
      BZ2_decompress: with a new portion of input, run until a block is complete, the stream
      ends, an error is found, or the input is used up. On any input, the arrays and 32-bit fields
      take the decoder where the specification machine goes. They are overrun exactly when the bits,
      run over unbounded numbers and sequences, are not tame; on tame bits that free run is what the
      decoder does.
    */
    method Decompress(chunk: seq<Byte>)
      requires Valid()
      modifies this, reader, inUse, seqToUnseq, minLens, mtfa, mtfbase, limit, base, perm, selectorMtf, selector, unzftab
      ensures Valid() && (st, reader.Pending()) == Run(old(st), old(reader.Pending()) + Unpacked(chunk))
      ensures !old(st).Stray? ==> (phase.Strayed? <==> !Tame(old(st), old(reader.Pending()) + Unpacked(chunk)))
      ensures !old(st).Stray? && !phase.Strayed? ==>
                (st, reader.Pending()) == FreeRun(old(st), old(reader.Pending()) + Unpacked(chunk))
    {
      hide Agrees, Run, Apart, Steady, Standing, Tame, FreeRun, BitReader.Valid, BitReader.Pending, Unpacked;
      Phases();
      ghost var bits := reader.Pending() + Unpacked(chunk);
      if !st.Stray? { StraysExactly(st, bits); }
      Supply(chunk);
      RunOn();
      Phases();
    }

    /** The same, with what has been supplied. */
    method RunOn()
      requires Valid()
      modifies this, reader, inUse, seqToUnseq, minLens, mtfa, mtfbase, limit, base, perm, selectorMtf, selector, unzftab
      ensures Valid() && reader.Valid() && (st, reader.Pending()) == Run(old(st), old(reader.Pending()))
    {
      hide Agrees, Step, Need, Apart, Steady;
      Phases();
      ghost var goal := Run(st, reader.Pending());
      while phase.Reading?
        invariant Valid() && reader.Valid() && Run(st, reader.Pending()) == goal && (phase.Reading? <==> st.Running?)
        decreases |reader.Pending()|
      {
        Phases();
        ghost var p := reader.Pending();
        NeedSome(phase.at);
        var ok, v := reader.GetBits(Need(phase.at));
        if !ok { break; }
        Take(v);
        Phases();
      }
    }

    /** More input, for a later call. */
    method Supply(chunk: seq<Byte>)
      requires Valid() && reader.Valid()
      modifies reader
      ensures Valid() && reader.Valid() && reader.Pending() == old(reader.Pending()) + Unpacked(chunk)
    {
      hide Agrees, Apart, Steady;
      reader.Supply(chunk);
    }

    /** A block has been written: the next header is awaited. */
    method NextBlock()
      requires Valid() && phase.Written? && st.Output?
      modifies `phase, `st
      ensures Valid() && st == Running(BlkHdr(1), old(st).s) && phase == Reading(BlkHdr(1))
    {
      hide List, Marked, View, Used, Chunks, Apart, Symbols, MapHolds;
      st := Running(BlkHdr(1), st.s);
      phase := Reading(BlkHdr(1));
    }
  }

  lemma NeedSome(at: Label)
    ensures 1 <= Need(at) <= 24
  {
  }

  lemma EightBits()
    ensures Pow2(8) == 256 && Pow2(1) == 2 && Pow2(15) == 0x8000
  {
    assert Pow2(12) == 4096;
  }

  /** A number of at most 21 bits. */
  lemma NumberSmall(zn: int, x: int)
    requires 0 <= zn <= LONGEST + 1 && 0 <= x < Pow2(zn)
    ensures x < 0x20_0000
  {
    assert Pow2(11) == 2048 && Pow2(10) == 1024;
    Pow2Add(11, 10);
    Pow2Add(zn, 21 - zn);
    Larger(Pow2(zn), Pow2(21 - zn));
  }

  lemma Larger(a: nat, b: nat)
    requires b >= 1
    ensures a <= a * b
  {
  }

  lemma StepBlkHdr(k: int, s: Saved, v: nat)
    ensures Step(BlkHdr(k), s, v) ==
            if k == 1 && v == EndByte(1) then Running(EndHdr(2), s)
            else if v != BlockByte(k) then Failed(DATA_ERROR)
            else if k < 6 then Running(BlkHdr(k + 1), s)
            else Running(BCrc(1), s.(storedCRC := 0))
  {
  }

  lemma StepBCrc(k: int, s: Saved, v: nat)
    ensures Step(BCrc(k), s, v) ==
            var s' := s.(storedCRC := s.storedCRC * 256 + v);
            if k < 4 then Running(BCrc(k + 1), s') else Running(RandBit, s')
  {
  }

  lemma StepCCrc(k: int, s: Saved, v: nat)
    ensures Step(CCrc(k), s, v) ==
            var s' := s.(storedCRC := s.storedCRC * 256 + v);
            if k < 4 then Running(CCrc(k + 1), s') else StreamEnd(s')
  {
  }

  lemma StepRandBit(s: Saved, v: nat)
    ensures Step(RandBit, s, v) ==
            Running(OrigPtr(1), s.(blockRandomised := v == 1, origPtr := 0))
  {
  }

  lemma StepOrigPtr(k: int, s: Saved, v: nat)
    ensures Step(OrigPtr(k), s, v) ==
            var s' := s.(origPtr := s.origPtr * 256 + v);
            if k < 3 then Running(OrigPtr(k + 1), s')
            else if s'.origPtr > 10 + 100000 * s.blockSize100k then Failed(DATA_ERROR)
            else Running(Mapping1(0), s'.(inUse16 := [], inUse := seq(256, _ => false)))
  {
  }

  lemma StepSelector2(s: Saved, v: nat)
    ensures Step(Selector2, s, v) ==
            if v < 1 then Failed(DATA_ERROR) else Running(Selector3(0), s.(nSelectors := v, selectorMtf := []))
  {
  }

  lemma StepEndHdr(k: int, s: Saved, v: nat)
    ensures Step(EndHdr(k), s, v) ==
            if v != EndByte(k) then Failed(DATA_ERROR)
            else if k < 6 then Running(EndHdr(k + 1), s)
            else Running(CCrc(1), s.(storedCRC := 0))
  {
  }

  lemma StepMtf(zn: int, zvec: int, s: Saved, v: nat)
    ensures Step(MtfFirst(zn), s, v) == Checked(zn, v, s)
    ensures Step(MtfMore(zn, zvec), s, v) == Checked(zn, 2 * zvec + v, s)
  {
    hide CodeStrays, MtfCheck;
  }

  lemma BlockSizeKnown(at: Label, s: Saved)
    requires Fit(at, s) && !at.Magic?
    ensures OneToNine(s.blockSize100k)
  {
  }

  lemma StepSelector3(j: int, s: Saved, v: nat)
    ensures Step(Selector3(j), s, v) ==
            if v != 0 then if j + 1 >= s.nGroups then Failed(DATA_ERROR) else Running(Selector3(j + 1), s)
            else if |s.selectorMtf| >= MAX_SELECTORS then Stray
            else Running(if |s.selectorMtf| + 1 < s.nSelectors then Selector3(0) else Coding1(0), SelectorSaved(s, j))
  {
    hide UndoSelectors;
  }

  lemma {:induction false} TallyRun(l: seq<int>, c: int, n: nat)
    ensures forall d: int :: Count(l + Repeat(c, n), d) == Count(l, d) + if d == c then n else 0
  {
    if n == 0 {
      assert l + Repeat(c, 0) == l;
    } else {
      TallyRun(l, c, n - 1);
      var more := l + Repeat(c, n);
      assert more[..|more| - 1] == l + Repeat(c, n - 1);
    }
  }

  /** The list with entry k in front, and its code in the column. */
  function Moved(d: Decoder, k: nat): Decoder
    requires k < |d.list|
  {
    d.(col := d.col + [ToFront(d.list, k)[0]], list := ToFront(d.list, k))
  }

  /** A run that is flushed leaves everything in place, and its bytes are those of the front entry. */
  lemma FlushFits(s: Saved)
    requires Decoding(s) && |s.inUse| == 256
    ensures |s.mtf.col| <= 100000 * s.blockSize100k && |s.mtf.list| == 256 && |Flush(s.mtf).col| == |s.mtf.col| + s.mtf.run
    ensures |s.mtf.col| + s.mtf.run <= 100000 * s.blockSize100k ==> Decoding(s.(mtf := Flush(s.mtf)))
    ensures 0 <= s.mtf.list[0] < |Used(s.inUse)|
    ensures Unmapped(Used(s.inUse), Flush(s.mtf).col) == Unmapped(Used(s.inUse), s.mtf.col) + Repeat(Used(s.inUse)[s.mtf.list[0]], s.mtf.run)
  {
    hide Used, Decoding, Closed, Unmapped;
    DecodingFacts(s);
    ClosedFlush(s.mtf, |Used(s.inUse)|);
    UsedBytes(s.inUse, s.mtf.list[0]);
    if |s.mtf.col| + s.mtf.run <= 100000 * s.blockSize100k { DecodingMtf(s, Flush(s.mtf)); }
    UnmappedRun(Used(s.inUse), s.mtf.col, s.mtf.list[0], s.mtf.run);
  }

  /** So does a move to the front. */
  lemma MoveFits(s: Saved, nn: nat)
    requires Decoding(s) && |s.inUse| == 256 && nn < |Used(s.inUse)| && |s.mtf.col| < 100000 * s.blockSize100k
    ensures |s.mtf.list| == 256 && nn < 256 && 0 <= s.mtf.list[nn] < |Used(s.inUse)| && Decoding(s.(mtf := Moved(s.mtf, nn)))
    ensures 0 <= Used(s.inUse)[s.mtf.list[nn]] < 256
    ensures Unmapped(Used(s.inUse), s.mtf.col + [s.mtf.list[nn]]) ==
            Unmapped(Used(s.inUse), s.mtf.col) + [Used(s.inUse)[s.mtf.list[nn]]]
  {
    hide Used, Decoding, Closed, Unmapped;
    var d, n := s.mtf, |Used(s.inUse)|;
    DecodingFacts(s);
    ClosedMove(d, n, nn);
    UsedBytes(s.inUse, d.list[nn]);
    UnmappedConcat(Used(s.inUse), d.col, [d.list[nn]]);
    ClosedMore(d.(list := ToFront(d.list, nn)), n, d.list[nn]);
    DecodingMtf(s, Moved(d, nn));
  }

  lemma ClosedMore(d: Decoder, n: nat, c: int)
    requires Closed(d, n) && 0 <= c < n
    ensures Closed(d.(col := d.col + [c]), n)
  {
  }

  /** A symbol other than a run digit, when no run is pending. */
  function AfterRun(sym: int, s: Saved): State
    requires 0 < |Used(s.inUse)| <= |s.mtf.list| && 2 <= sym <= |Used(s.inUse)| + 1
  {
    if sym == |Used(s.inUse)| + 1 then
      var column := Unmapped(Used(s.inUse), s.mtf.col);
      if s.origPtr < 0 || s.origPtr >= |column| then Failed(DATA_ERROR) else Output(s, column)
    else if |s.mtf.col| >= 100000 * s.blockSize100k then Failed(DATA_ERROR)
    else GetMtf(s.(mtf := Moved(s.mtf, sym - 1)))
  }

  lemma SymbolCases(sym: int, s: Saved)
    requires 0 < |Used(s.inUse)| <= |s.mtf.list| && 0 <= sym <= |Used(s.inUse)| + 1
    ensures sym == RUNA || sym == RUNB ==> Symbol(sym, s) == GetMtf(s.(mtf := Decode1(s.mtf, sym)))
    ensures sym >= 2 && |s.mtf.col| + s.mtf.run > 100000 * s.blockSize100k ==> Symbol(sym, s) == Failed(DATA_ERROR)
    ensures sym >= 2 && |s.mtf.col| + s.mtf.run <= 100000 * s.blockSize100k ==>
              Symbol(sym, s) == AfterRun(sym, s.(mtf := Flush(s.mtf)))
  {
    hide Used, GetMtf, Unmapped;
  }

  lemma FirstSought(s: Saved, zn: int, v: nat)
    requires Fit(MtfFirst(zn), s) && v < Pow2(Need(MtfFirst(zn)))
    ensures Sought(CurrentLengths(s), zn, v) && s.groupNo >= 0 && OneToNine(s.blockSize100k) && 0 <= zn <= LONGEST + 1
  {
    hide Used, FirstCode;
    DecodingLengths(s);
    LengthRange(CurrentLengths(s));
    FirstCodeZero(CurrentLengths(s), zn);
  }

  lemma MoreSought(s: Saved, zn: int, zvec: int, v: nat)
    requires Fit(MtfMore(zn, zvec), s) && v < 2
    ensures Sought(CurrentLengths(s), zn, 2 * zvec + v) && s.groupNo >= 0 && OneToNine(s.blockSize100k) && 0 <= zn <= LONGEST + 1
  {
    hide Used, FirstCode;
  }

  lemma UnmappedRun(used: seq<int>, col: seq<int>, c: nat, n: nat)
    requires c < |used| && 0 <= used[c] < 256
    ensures Unmapped(used, col + Repeat(c, n)) == Unmapped(used, col) + Repeat(used[c], n)
  {
  }

  function SelectorSaved(s: Saved, j: int): Saved {
    var m := s.selectorMtf + [j];
    if |m| < s.nSelectors then s.(selectorMtf := m)
    else s.(selectorMtf := m, selector := UndoSelectors(m, Initial(if s.nGroups >= 0 then s.nGroups else 0)), len := [])
  }

  lemma {:induction false} UsedFew(u: seq<bool>)
    ensures |Used(u)| <= |u|
  {
  }

  /** The loop of the source looks at the arrays as Lookup does. */
  lemma LookupArrays(tab: Tables, zn: int, zvec: int)
    requires |tab.limit| == |tab.base| == |tab.perm| == 258 && zn >= 0
    ensures zn > LONGEST ==> Lookup(tab, zn, zvec) == NoCode
    ensures zn <= LONGEST && zvec > tab.limit[zn] ==> Lookup(tab, zn, zvec) == Longer
    ensures zn <= LONGEST && zvec <= tab.limit[zn] ==>
              var k := zvec - tab.base[zn];
              Lookup(tab, zn, zvec) == if k < 0 || k >= 258 then NoCode else Sym(tab.perm[k])
  {
  }

  /** Both parts of a column are mapped alike. */
  lemma UnmappedConcat(used: seq<int>, a: seq<int>, b: seq<int>)
    ensures Unmapped(used, a + b) == Unmapped(used, a) + Unmapped(used, b)
  {
  }

  lemma UsedBytes(u: seq<bool>, k: nat)
    requires |u| == 256 && k < |Used(u)|
    ensures 0 <= Used(u)[k] < 256 && Unmapped(Used(u), [k]) == [Used(u)[k]]
  {
  }

  predicate Measuring(at: Label) {
    at.Coding1? || at.Coding2? || at.Coding3? || at.MtfFirst? || at.MtfMore?
  }

  predicate MapUsed(at: Label) {
    || at.Selector1? || at.Selector2? || at.Selector3? || at.Coding1? || at.Coding2? || at.Coding3? || at.MtfFirst? || at.MtfMore?
  }
}
