/**
  What holds of BZ2_decompress (dep/bzip2/decompress.c, lines 106-621) at every GET_BITS label,
  whatever the input: counters in range, lengths complete, selectors valid, and the bits of a code
  read so far beyond every shorter code. Steps keep it.
*/
module MachineState {
  import opened Common
  import opened CanonicalCode
  import opened DecodeTables
  import opened Mtf
  import opened MtfEncoder
  import opened Decompress

  /** The mapping table has been received, and some byte is in use. */
  ghost predicate Mapped(s: Saved) {
    |s.inUse| == 256 && |Used(s.inUse)| > 0
  }

  ghost predicate Below(m: seq<int>, n: int) {
    forall i :: 0 <= i < |m| ==> 0 <= m[i] < n
  }

  ghost predicate Chosen(s: Saved) {
    Mapped(s) && 2 <= s.nGroups <= 6 && s.nSelectors >= 1 && |s.selector| == s.nSelectors && Below(s.selector, s.nGroups)
  }

  /** Complete code lengths for an alphabet of n symbols. */
  ghost predicate Measured(lens: seq<int>, n: nat) {
    |lens| == n && Lengths(lens)
  }

  /** All code lengths received so far are complete. */
  ghost predicate Coding(s: Saved) {
    Chosen(s) && |s.len| <= s.nGroups && forall t :: 0 <= t < |s.len| ==> Measured(s.len[t], |Used(s.inUse)| + 2)
  }

  /** The codes of the first n bytes stay among themselves at the front of the list; the column holds no others. */
  ghost predicate Closed(d: Decoder, n: nat) {
    && |d.list| == 256 && n <= 256
    && (forall i :: 0 <= i < n ==> 0 <= d.list[i] < n)
    && Below(d.col, n)
  }

  /** The symbols are being read, group groupNo of fifty at the moment. */
  ghost predicate Decoding(s: Saved) {
    && Coding(s) && |s.len| == s.nGroups && Closed(s.mtf, |Used(s.inUse)|) && |s.mtf.col| <= 100000 * s.blockSize100k
    && -1 <= s.groupNo < s.nSelectors && 0 <= s.groupPos < G_SIZE && (s.groupNo == -1 ==> s.groupPos == 0)
  }

  predicate OneToNine(blockSize100k: int) {
    1 <= blockSize100k <= 9
  }

  ghost predicate Fit(at: Label, s: Saved) {
    (at.Magic? || OneToNine(s.blockSize100k)) && InPlace(at, s)
  }

  /** What k bytes can hold. */
  predicate HoldsBytes(x: int, k: int) {
    0 <= x && (k <= 0 ==> x == 0) && (k == 1 ==> x < 0x100) && (k == 2 ==> x < 0x1_0000) && (k == 3 ==> x < 0x100_0000)
    && (k == 4 ==> x < 0x1_0000_0000)
  }

  ghost predicate InPlace(at: Label, s: Saved) {
    match at
    case Magic(k) => 1 <= k <= 4
    case BlkHdr(k) => 1 <= k <= 6
    case BCrc(k) => 1 <= k <= 4 && HoldsBytes(s.storedCRC, k - 1)
    case RandBit => true
    case OrigPtr(k) => 1 <= k <= 3 && HoldsBytes(s.origPtr, k - 1)
    case Mapping1(_) => |s.inUse| == 256 && |s.inUse16| < 16
    case Mapping2(i, j) => |s.inUse| == 256 && |s.inUse16| == 16 && 0 <= i < 16 && 0 <= j < 16
    case Selector1 => Mapped(s)
    case Selector2 => Mapped(s) && 2 <= s.nGroups <= 6
    case Selector3(j) =>
      Mapped(s) && 2 <= s.nGroups <= 6 && 0 <= j < s.nGroups && |s.selectorMtf| < s.nSelectors && Below(s.selectorMtf, s.nGroups)
    case Coding1(t) => Coding(s) && t == |s.len| < s.nGroups
    case Coding2(lens, curr) => Coding(s) && |s.len| < s.nGroups && 1 <= curr <= LONGEST && Partial(lens, s)
    case Coding3(lens, curr) => Coding(s) && |s.len| < s.nGroups && 1 <= curr <= LONGEST && Partial(lens, s)
    case MtfFirst(zn) => Decoding(s) && s.groupNo >= 0 && zn == MinLen(CurrentLengths(s))
    case MtfMore(zn, zvec) => Decoding(s) && s.groupNo >= 0 && Sought(CurrentLengths(s), zn, 2 * zvec)
    case EndHdr(k) => 2 <= k <= 6
    case CCrc(k) => 1 <= k <= 4 && HoldsBytes(s.storedCRC, k - 1)
  }

  ghost predicate Partial(lens: seq<int>, s: Saved) {
    Lengths(lens) && |lens| < |Used(s.inUse)| + 2
  }

  /** zn bits of value zvec, or one more when zvec is even, are not below the codes of length zn. */
  ghost predicate Sought(lens: seq<int>, zn: int, zvec: int) {
    1 <= MinLen(lens) <= zn <= LONGEST + 1 && FirstCode(lens, zn) <= zvec < Pow2(zn)
  }

  lemma DecodingLengths(s: Saved)
    requires Decoding(s) && s.groupNo >= 0
    ensures 0 <= s.selector[s.groupNo] < |s.len| == s.nGroups && CurrentLengths(s) == s.len[s.selector[s.groupNo]]
    ensures Lengths(CurrentLengths(s)) && |CurrentLengths(s)| == |Used(s.inUse)| + 2
  {
    assert Measured(s.len[s.selector[s.groupNo]], |Used(s.inUse)| + 2);
  }

  // ----- the list and the column -----

  lemma ClosedStart(n: nat)
    requires n <= 256
    ensures Closed(Start(256), n)
  {
  }

  lemma ClosedFlush(d: Decoder, n: nat)
    requires Closed(d, n) && n > 0
    ensures Closed(Flush(d), n)
  {
  }

  lemma ClosedMove(d: Decoder, n: nat, k: nat)
    requires Closed(d, n) && k < n
    ensures Closed(d.(list := ToFront(d.list, k)), n) && 0 <= d.list[k] < n
  {
    var r := ToFront(d.list, k);
    forall i | 0 <= i < n ensures 0 <= r[i] < n {
      assert r[i] == d.list[if i == 0 then k else if i <= k then i - 1 else i];
    }
  }

  // ----- undoing the selectors' move-to-front -----

  lemma {:induction false} UndoBelow(mtf: seq<int>, pos: seq<int>, n: int)
    requires Below(mtf, |pos|) && Below(pos, n)
    ensures Below(UndoSelectors(mtf, pos), n)
    decreases |mtf|
  {
    if mtf != [] {
      var r := ToFront(pos, mtf[0]);
      forall i | 0 <= i < |r| ensures 0 <= r[i] < n {
        assert r[i] == pos[if i == 0 then mtf[0] else if i <= mtf[0] then i - 1 else i];
      }
      UndoBelow(mtf[1..], r, n);
    }
  }

  // ----- steps keep what holds at their labels -----

  predicate HeaderLabel(at: Label) {
    at.Magic? || at.BlkHdr? || at.BCrc? || at.RandBit? || at.OrigPtr? || at.EndHdr? || at.CCrc?
  }

  lemma HeaderCount(at: Label, s: Saved)
    requires Fit(at, s)
    ensures (at.BlkHdr? ==> 1 <= at.k <= 6) && (at.EndHdr? ==> at.k <= 6)
    ensures at.OrigPtr? ==> 0 <= s.origPtr < 0x1_0000
    ensures at.BCrc? || at.CCrc? ==> 0 <= s.storedCRC < 0x100_0000
  {
    hide Used, Mapped, Coding, Decoding, Sought;
  }

  lemma FitHeader(at: Label, s: Saved, v: nat)
    requires Fit(at, s) && HeaderLabel(at) && v < 256
    ensures Step(at, s, v).Running? ==> Fit(Step(at, s, v).at, Step(at, s, v).s)
  {
    hide Used, Mapped, Coding, Decoding, Sought;
  }

  lemma {:induction false} FitNextGroup(s: Saved, i: nat)
    requires |s.inUse| == 256 && |s.inUse16| == 16 && i <= 16 && OneToNine(s.blockSize100k)
    ensures NextGroup(s, i).Running? ==> Fit(NextGroup(s, i).at, NextGroup(s, i).s)
    decreases 16 - i
  {
    hide Used, Coding, Decoding, Sought;
    if i < 16 && !s.inUse16[i] { FitNextGroup(s, i + 1); }
  }

  lemma FitMapping(at: Label, s: Saved, v: nat)
    requires Fit(at, s) && (at.Mapping1? || at.Mapping2?)
    ensures Step(at, s, v).Running? ==> Fit(Step(at, s, v).at, Step(at, s, v).s)
  {
    hide Used, Coding, Decoding, Sought, NextGroup;
    if at.Mapping1? {
      var s' := s.(inUse16 := s.inUse16 + [v == 1]);
      if |s'.inUse16| == 16 { FitNextGroup(s', 0); }
    } else {
      var s' := if v == 1 then s.(inUse := s.inUse[at.i * 16 + at.j := true]) else s;
      if at.j == 15 { FitNextGroup(s', at.i + 1); }
    }
  }

  lemma SelectorCount(j: int, s: Saved)
    requires Fit(Selector3(j), s)
    ensures 0 <= j < s.nGroups && s.nGroups >= 2 && Below(s.selectorMtf + [j], s.nGroups)
  {
  }

  lemma FitSelector(at: Label, s: Saved, v: nat)
    requires Fit(at, s) && (at.Selector1? || at.Selector2? || at.Selector3?)
    ensures Step(at, s, v).Running? ==> Fit(Step(at, s, v).at, Step(at, s, v).s)
  {
    hide Used, UndoSelectors, Decoding, Sought;
    if at.Selector3? && v == 0 {
      var m := s.selectorMtf + [at.j];
      UndoBelow(m, Initial(s.nGroups), s.nGroups);
    }
  }

  /** The next code is awaited with a coding table chosen. */
  lemma FitGetMtf(s: Saved)
    requires Decoding(s) && OneToNine(s.blockSize100k)
    ensures GetMtf(s).Running? <==> s.groupPos > 0 || s.groupNo + 1 < s.nSelectors
    ensures GetMtf(s).Running? ==>
              var r := GetMtf(s).s;
              && Fit(GetMtf(s).at, r) && Decoding(r) && 0 <= r.groupNo < |r.selector| && 0 <= r.selector[r.groupNo] < r.nGroups == |s.len| <= 6
              && CurrentLengths(r) == s.len[r.selector[r.groupNo]]
    ensures s.groupNo >= -1 && s.groupPos >= 0
  {
    hide Used, Closed, MinLen;
    if GetMtf(s).Running? { DecodingLengths(GetMtf(s).s); }
  }

  /** Decoding goes on with another state of the list and the column. */
  lemma DecodingMtf(s: Saved, d: Decoder)
    requires Decoding(s) && Closed(d, |Used(s.inUse)|) && |d.col| <= 100000 * s.blockSize100k
    ensures Decoding(s.(mtf := d))
  {
    hide Used, Closed;
  }

  lemma DecodingFacts(s: Saved)
    requires Decoding(s)
    ensures Closed(s.mtf, |Used(s.inUse)|) && 0 < |Used(s.inUse)| <= 256 && |s.mtf.list| == 256 && 0 <= s.mtf.list[0] < |Used(s.inUse)|
    ensures |s.mtf.col| <= 100000 * s.blockSize100k && 2 <= s.nGroups <= 6 && |s.len| == s.nGroups
  {
  }
}
