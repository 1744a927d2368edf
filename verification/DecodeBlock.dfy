/**
  From a decoded column to its output routine (dep/bzip2/decompress.c, lines 484-568): counting,
  inverting in the FAST or the SMALL form, and the first byte.
*/
module DecodeBlock {
  import opened Common
  import opened Counting
  import opened InverseBwt
  import opened Inverter
  import opened RunLength
  import opened Unrle

  lemma Invertible(l: seq<Byte>)
    ensures exists t :: InverseSlots(l, t)
  {
    var t := SlotsInvert(l, |l|);
    assert InverseSlots(l, t);
  }

  /** T^-1 of a column: the one stable listing of its bytes. */
  ghost function Inverse(l: seq<Byte>): (t: seq<int>)
    ensures InverseSlots(l, t)
  {
    Invertible(l);
    var t :| InverseSlots(l, t);
    t
  }

  /** A received column, inverted, as it is walked from origPtr. */
  ghost function Inverted(l: seq<Byte>, origPtr: int): Column {
    Column(l, Inverse(l), origPtr)
  }

  lemma InvertedWalkable(l: seq<Byte>, origPtr: int)
    requires 0 <= origPtr < |l| <= 900000
    ensures Walkable(Inverted(l, origPtr)) && Stable(l, Inverse(l))
  {
    hide Slot, Less;
    InverseSlotsStable(l, Inverse(l));
    StableRanged(l, Inverse(l));
  }

  /** The block a column spells from origPtr. */
  ghost function SpeltBlock(l: seq<Byte>, origPtr: int): seq<Byte>
    requires 0 <= origPtr < |l| <= 900000
  {
    InvertedWalkable(l, origPtr);
    Block(Inverted(l, origPtr))
  }

  /** What decompress.c has tested before it inverts. */
  predicate Decoded(l: seq<Byte>, origPtr: int, blockSize100k: int) {
    0 <= origPtr < |l| <= 900000 && |l| <= 100000 * blockSize100k
  }

  /** The k-th byte of the walk. */
  ghost function SpeltByte(l: seq<Byte>, origPtr: int, k: nat): Byte
    requires 0 <= origPtr < |l| <= 900000
  {
    InvertedWalkable(l, origPtr);
    ByteAt(Inverted(l, origPtr), k)
  }

  /** What both output routines are to write. */
  ghost function SpeltData(l: seq<Byte>, origPtr: int): seq<Byte>
    requires 0 <= origPtr < |l| <= 900000
  {
    InvertedWalkable(l, origPtr);
    Expanded(Inverted(l, origPtr))
  }

  /** For a block that does not end between a run and its count, this is the block's data. */
  lemma DataOfBlock(l: seq<Byte>, origPtr: int)
    requires 0 <= origPtr < |l| <= 900000 && Complete(SpeltBlock(l, origPtr))
    ensures SpeltData(l, origPtr) == RunDecode(SpeltBlock(l, origPtr))
  {
    hide Complete, RunDecode, Inverse;
    InvertedWalkable(l, origPtr);
  }

  /** The column that arises from b and one of its sorted lists of rotations spells b. */
  lemma SpellsBlock(l: seq<Byte>, origPtr: int, b: seq<Byte>)
    requires 0 <= origPtr < |l| == |b| <= 900000
    requires forall t, i :: Stable(l, t) && 0 <= i < |b| ==> Emitted(l, t, origPtr, i) == b[i]
    ensures SpeltBlock(l, origPtr) == b
  {
    hide Slot, Less, Emitted, Stable, Inverse;
    InvertedWalkable(l, origPtr);
    forall i | 0 <= i < |b| ensures SpeltBlock(l, origPtr)[i] == b[i] {
      assert Emitted(l, Inverse(l), origPtr, i) == b[i];
    }
  }

  lemma StableRanged(l: seq<Byte>, t: seq<int>)
    requires Stable(l, t)
    ensures |t| == |l| && Ranged(t)
  {
  }

  /** The column in the low bytes of the cells. */
  method StoreColumn(cells: array<int>, column: seq<Byte>)
    requires |column| <= cells.Length
    modifies cells
    ensures forall i :: 0 <= i < |column| ==> cells[i] == column[i]
  {
    for i := 0 to |column|
      invariant forall k :: 0 <= k < i ==> cells[k] == column[k]
    {
      cells[i] := column[i];
    }
  }

  /** The counts the symbol loop has made. */
  ghost predicate Counted(unzftab: array<int>, column: seq<Byte>)
    reads unzftab
  {
    unzftab.Length == 256 && forall c :: 0 <= c < 256 ==> unzftab[c] == Count<int>(column, c)
  }

  method CountColumn(column: seq<Byte>) returns (unzftab: array<int>)
    ensures fresh(unzftab) && Counted(unzftab, column)
  {
    unzftab := new int[256](_ => 0);
    ghost var l: seq<int> := column;
    for i := 0 to |column|
      invariant forall c :: 0 <= c < 256 ==> unzftab[c] == Count(l[..i], c)
    {
      forall c | 0 <= c < 256 ensures Count(l[..i + 1], c) == Count(l[..i], c) + if l[i] == c then 1 else 0 {
        CountStep(l, i, c);
      }
      unzftab[column[i]] := unzftab[column[i]] + 1;
    }
    assert l[..|column|] == l;
  }

  /** The FAST form of any column and any origPtr within it. */
  method StartFast(column: seq<Byte>, unzftab: array<int>, origPtr: int, blockSize100k: int) returns (o: FastOutput)
    requires Decoded(column, origPtr, blockSize100k) && Counted(unzftab, column)
    ensures fresh(o) && fresh(o.tt) && o.Valid() && o.written == [] && o.nblock_used == 1
    ensures o.c == Inverted(column, origPtr)
  {
    hide Less, Slot, Count, Stable, Packed, RunDecode, Complete, Inverse, InverseSlots;
    var tt, cftab := new int[|column|], new int[257];
    StoreColumn(tt, column);
    SetupCftab(unzftab, cftab, column);
    ghost var t := BuildFast(tt, cftab, |column|, column);
    OneInverse(column, t, Inverse(column));
    InvertedWalkable(column, origPtr);
    o := new FastOutput(tt, |column|, blockSize100k, origPtr, column, t);
  }

  /** The SMALL form of the same. */
  method StartSmall(column: seq<Byte>, unzftab: array<int>, origPtr: int, blockSize100k: int) returns (o: SmallOutput)
    requires Decoded(column, origPtr, blockSize100k) && Counted(unzftab, column)
    ensures fresh(o) && fresh(o.ll16) && fresh(o.ll4) && fresh(o.cftab) && o.Valid() && o.written == [] && o.nblock_used == 1
    ensures o.c == Inverted(column, origPtr)
  {
    hide Less, Slot, Count, Stable, Table, Mutual, RunDecode, Complete, FillingT, Walk, Inverse, InverseSlots;
    var ll16, ll4 := new int[|column|], new int[(1 + |column|) / 2](_ => 0);
    var cftab, cftabCopy := new int[257], new int[257];
    StoreColumn(ll16, column);
    SetupCftab(unzftab, cftab, column);
    for i := 0 to 257
      invariant forall c :: 0 <= c < i ==> cftabCopy[c] == Less(column, c)
      modifies cftabCopy
    {
      cftabCopy[i] := cftab[i];
    }
    ghost var t := BuildSmall(ll16, ll4, cftabCopy, |column|, column);
    TableOfT(ll16[..], ll4[..], column, t);
    OneInverse(column, t, Inverse(column));
    InvertedWalkable(column, origPtr);
    ghost var u := ReverseCycle(ll16, ll4, origPtr, SlotList(column), t);
    o := new SmallOutput(ll16, ll4, cftab, |column|, blockSize100k, origPtr, column, t, u);
  }

  /** What has come out in all. */
  function Joined(parts: seq<seq<Byte>>): seq<Byte> {
    if parts == [] then [] else Joined(parts[..|parts| - 1]) + parts[|parts| - 1]
  }

  /** Both forms are at the same point of the same column. */
  ghost predicate InStep(fast: FastOutput, small: SmallOutput, column: seq<Byte>, origPtr: int)
    reads fast, fast.tt, small, small.ll16, small.ll4, small.cftab
  {
    fast.Valid() && small.Valid() && fast.c == small.c == Inverted(column, origPtr) && fast.written == small.written
  }

  /** One call of each with the same space. */
  method Both(fast: FastOutput, small: SmallOutput, ghost column: seq<Byte>, ghost origPtr: int, avail: nat)
    returns (fastCorrupt: bool, byFast: seq<Byte>, smallCorrupt: bool, bySmall: seq<Byte>)
    requires 0 <= origPtr < |column| <= 900000 && InStep(fast, small, column, origPtr)
    modifies fast, small
    ensures fastCorrupt <==> !Complete(SpeltBlock(column, origPtr)) && |old(fast.written)| + avail >= |SpeltData(column, origPtr)|
    ensures smallCorrupt <==> !Complete(SpeltBlock(column, origPtr)) && |old(fast.written)| + avail > |SpeltData(column, origPtr)|
    ensures bySmall == NextBytes(SpeltData(column, origPtr), |old(fast.written)|, avail)
    ensures !fastCorrupt ==> byFast == bySmall && InStep(fast, small, column, origPtr) && fast.written == old(fast.written) + byFast
    ensures fastCorrupt ==> byFast == [] && fast.written == old(fast.written)
  {
    hide RunDecode, Complete, Inverse, InverseSlots, At, Walk, CrcFrom, Inverted, Packed, Table, Walkable, Block, Less, Expanded, NextBytes;
    fastCorrupt, byFast := fast.UnRLE(avail);
    smallCorrupt, bySmall := small.UnRLE(avail);
    assert SpeltBlock(column, origPtr) == Block(fast.c) && SpeltData(column, origPtr) == Expanded(fast.c);
    assert fast.written + [] == fast.written;
  }

  /** Where both stand. */
  lemma BothDone(fast: FastOutput, small: SmallOutput, column: seq<Byte>, origPtr: int)
    requires 0 <= origPtr < |column| <= 900000 && InStep(fast, small, column, origPtr)
    ensures fast.calculatedBlockCRC == small.calculatedBlockCRC == CrcOf(fast.written)
    ensures fast.written <= SpeltData(column, origPtr) && fast.Done() == small.Done()
    ensures fast.Done() <==> Complete(SpeltBlock(column, origPtr)) && fast.written == SpeltData(column, origPtr)
  {
    hide RunDecode, Complete, Inverse, InverseSlots, At, Walk, CrcFrom, Inverted, Packed, Table, Walkable, Block, Less, Expanded;
    AtDone(fast.c, fast.nblock_used, fast.k0, fast.state_out_ch, fast.state_out_len, fast.written);
    AtDone(small.c, small.nblock_used, small.k0, small.state_out_ch, small.state_out_len, small.written);
    Stopped(fast.c, fast.nblock_used, fast.k0, fast.state_out_ch, fast.state_out_len, fast.written);
    Stopped(small.c, small.nblock_used, small.k0, small.state_out_ch, small.state_out_len, small.written);
    AtSome(fast.c, fast.nblock_used, fast.k0, fast.state_out_ch, fast.state_out_len, fast.written);
    AtSome(small.c, small.nblock_used, small.k0, small.state_out_ch, small.state_out_len, small.written);
    assert SpeltBlock(column, origPtr) == Block(fast.c) && SpeltData(column, origPtr) == Expanded(fast.c);
  }

  /**
    FAST and SMALL agree: on any column, from any origPtr within it and whatever space each call
    offers, both write the same bytes call by call, with the same CRC, and are done at the same
    moment, when the data is out. Where the block ends between a run and its count they are never
    done: FAST finds the corruption in the call whose space reaches the end of the data, SMALL in
    the call whose space goes past it.
  */
  method BothForms(column: seq<Byte>, origPtr: int, blockSize100k: int, space: seq<nat>)
    returns (byFast: seq<seq<Byte>>, bySmall: seq<seq<Byte>>, fastCrc: Crc, smallCrc: Crc, fastDone: bool, smallDone: bool,
             fastCorrupt: bool, smallCorrupt: bool)
    requires Decoded(column, origPtr, blockSize100k)
    ensures byFast == bySmall && |byFast| <= |space| && Joined(byFast) <= SpeltData(column, origPtr)
    ensures forall i :: 0 <= i < |byFast| ==> byFast[i] == NextBytes(SpeltData(column, origPtr), |Joined(byFast[..i])|, space[i])
    ensures Complete(SpeltBlock(column, origPtr)) ==> |byFast| == |space| && !fastCorrupt && !smallCorrupt
    ensures |byFast| == |space| ==> !fastCorrupt && !smallCorrupt && fastCrc == smallCrc == CrcOf(Joined(byFast))
    ensures |byFast| == |space| ==>
              (fastDone <==> Complete(SpeltBlock(column, origPtr)) && Joined(byFast) == SpeltData(column, origPtr)) && smallDone == fastDone
    ensures |byFast| < |space| ==>
              && (fastCorrupt <==> |Joined(byFast)| + space[|byFast|] >= |SpeltData(column, origPtr)|) && fastCorrupt
              && (smallCorrupt <==> |Joined(byFast)| + space[|byFast|] > |SpeltData(column, origPtr)|)
  {
    hide RunDecode, SpeltBlock, SpeltData, Complete, InStep, Inverted, CrcFrom, NextBytes;
    var unzftab := CountColumn(column);
    var fast := StartFast(column, unzftab, origPtr, blockSize100k);
    var small := StartSmall(column, unzftab, origPtr, blockSize100k);
    byFast, bySmall, fastCorrupt, smallCorrupt := [], [], false, false;
    SameStart(fast, small, column, origPtr, blockSize100k);
    for i := 0 to |space|
      invariant !fastCorrupt && !smallCorrupt && InStep(fast, small, column, origPtr)
      invariant byFast == bySmall && |byFast| == i && fast.written == Joined(byFast)
      invariant forall k :: 0 <= k < i ==>
                  byFast[k] == NextBytes(SpeltData(column, origPtr), |Joined(byFast[..k])|, space[k])
    {
      BothDone(fast, small, column, origPtr);
      fastCrc, smallCrc, fastDone, smallDone := fast.calculatedBlockCRC, small.calculatedBlockCRC, fast.Done(), small.Done();
      var more, also;
      fastCorrupt, more, smallCorrupt, also := Both(fast, small, column, origPtr, space[i]);
      if fastCorrupt { return; }
      assert (byFast + [more])[..i] == byFast;
      forall k | 0 <= k < i ensures (byFast + [more])[..k] == byFast[..k] { }
      byFast, bySmall := byFast + [more], bySmall + [also];
    }
    BothDone(fast, small, column, origPtr);
    fastCrc, smallCrc, fastDone, smallDone := fast.calculatedBlockCRC, small.calculatedBlockCRC, fast.Done(), small.Done();
  }

  lemma SameStart(fast: FastOutput, small: SmallOutput, column: seq<Byte>, origPtr: int, blockSize100k: int)
    requires Decoded(column, origPtr, blockSize100k) && fast.Valid() && small.Valid()
    requires fast.c == small.c == Inverted(column, origPtr) && fast.written == small.written
    ensures InStep(fast, small, column, origPtr)
  {
    hide Complete, SpeltBlock;
  }

  /** A block that ends between a run and its count: with room for four bytes FAST finds it, SMALL does not. */
  lemma FourAlone()
    ensures !Complete(SpeltBlock([0, 0, 0, 0], 0)) && SpeltData([0, 0, 0, 0], 0) == [0, 0, 0, 0]
  {
    hide Inverse, Complete;
    var l: seq<Byte> := [0, 0, 0, 0];
    InvertedWalkable(l, 0);
    var c := Inverted(l, 0);
    AllZero(c, 4);
    AllZero(c, 5);
    FourZeros();
  }

  lemma AllZero(c: Column, n: nat)
    requires Walkable(c) && c.l == [0, 0, 0, 0] && n <= 5
    ensures Spelled(c, n) == Copies(0, n)
  {
  }

  lemma FourZeros()
    ensures ReadAll(Copies(0, 4)) == Reading([0, 0, 0, 0], 0, 4) && !Complete(Copies(0, 4))
    ensures RunDecode(Copies(0, 5)) == [0, 0, 0, 0]
  {
    var b := Copies(0, 5);
    assert b[..4] == Copies(0, 4) && Copies(0, 4)[..3] == Copies(0, 3) && Copies(0, 3)[..2] == Copies(0, 2);
    assert Copies(0, 2)[..1] == Copies(0, 1) && Copies(0, 1)[..0] == [];
    assert ReadAll(Copies(0, 1)) == Reading([0], 0, 1);
    assert ReadAll(Copies(0, 2)) == Reading([0, 0], 0, 2);
    assert ReadAll(Copies(0, 3)) == Reading([0, 0, 0], 0, 3);
    assert [0, 0, 0] + [0] == [0, 0, 0, 0];
  }

  lemma FirstBytes(fast: FastOutput, small: SmallOutput)
    requires fast.Valid() && small.Valid() && fast.c == small.c && fast.nblock_used == small.nblock_used == 1
    ensures Walkable(fast.c) && fast.k0 == small.k0 == ByteAt(fast.c, 0)
    ensures fast.tPos == Walk(fast.c.t, fast.c.origPtr, 2) && small.tPos == Walk(fast.c.t, fast.c.origPtr, 1) && small.Tables()
  {
  }

  /** For any column and origPtr, the bytes of BZ_GET_FAST are those of BZ_GET_SMALL, past the end of the block too. */
  method SameBytes(column: seq<Byte>, origPtr: int, blockSize100k: int, n: nat) returns (byFast: seq<int>, bySmall: seq<int>)
    requires Decoded(column, origPtr, blockSize100k) && n > 0
    ensures byFast == bySmall && |byFast| == n
    ensures forall k :: 0 <= k < n ==> byFast[k] == SpeltByte(column, origPtr, k)
  {
    hide At, Inverse, Walk, Packed, Table, Emitted;
    var unzftab := CountColumn(column);
    var fast := StartFast(column, unzftab, origPtr, blockSize100k);
    var small := StartSmall(column, unzftab, origPtr, blockSize100k);
    FirstBytes(fast, small);
    byFast, bySmall := [fast.k0], [small.k0];
    var tPos := fast.tPos;
    ghost var c := Inverted(column, origPtr);
    while |byFast| < n
      invariant fast.Valid() && fast.c == small.c == c && small.Tables() && small.nblock_used == |byFast|
      invariant tPos == Walk(c.t, c.origPtr, |byFast| + 1) && small.tPos == Walk(c.t, c.origPtr, |byFast|)
      invariant byFast == bySmall && 1 <= |byFast| <= n
      invariant forall k :: 0 <= k < |byFast| ==> byFast[k] == ByteAt(c, k)
      decreases n - |byFast|
    {
      fast.GetByte(|byFast|);
      var k1, next := fast.Get(tPos).0, fast.Get(tPos).1;
      var also := small.Get();
      byFast, bySmall, tPos := byFast + [k1], bySmall + [also], next;
    }
  }
}
