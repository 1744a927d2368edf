/**
  How long the compressed form of a block, and of a stream, can be. A block's bits always fit
  behind the block in arr2 (dep/bzip2/compress.c, line 619; dep/bzip2/bzlib.c, line 178), where
  the source writes them without a test; and the stream grows linearly with the data.
*/
module OutputBound {
  import opened Common
  import opened RunLength
  import opened InverseBwt
  import opened Mtf
  import opened BlockFormat
  import opened BlockRoundTrip
  import opened WholeBlock
  import opened StreamFormat
  import CC = CanonicalCode
  import ME = MtfEncoder

  /** Bits of a block that do not depend on its size: header, mapping and six coding tables. */
  const FIXED_BITS := 52000
  const N_OVERSHOOT := 34

  // ----- one block -----

  lemma {:induction false} MembersSize(u: seq<bool>, i: nat)
    requires |u| == 256 && i <= 16
    ensures |MemberBits(u, i)| <= 16 * (16 - i)
    decreases 16 - i
  {
    hide Groups;
    if i < 16 { MembersSize(u, i + 1); }
  }

  lemma {:induction false} UnarySize(j: nat)
    ensures |Unary(j)| == j + 1
  {
    if j > 0 { UnarySize(j - 1); }
  }

  lemma {:induction false} UnariesSize(m: seq<int>)
    requires forall i :: 0 <= i < |m| ==> 0 <= m[i] < 6
    ensures |UnaryAll(m)| <= 6 * |m|
  {
    if m != [] {
      UnarySize(m[0]);
      UnariesSize(m[1..]);
    }
  }

  lemma {:induction false} DeltaSize(curr: int, goal: int)
    ensures |DeltaBits(curr, goal)| == 2 * (if curr < goal then goal - curr else curr - goal) + 1
    decreases if curr < goal then goal - curr else curr - goal
  {
    if curr < goal {
      DeltaSize(curr + 1, goal);
    } else if curr > goal {
      DeltaSize(curr - 1, goal);
    }
  }

  lemma {:induction false} LengthsSize(curr: int, len: seq<int>)
    requires 1 <= curr <= 17 && CC.Lengths(len) && forall i :: 0 <= i < |len| ==> len[i] <= 17
    ensures |LengthBits(curr, len)| <= 33 * |len|
    decreases |len|
  {
    if len != [] {
      DeltaSize(curr, len[0]);
      LengthsSize(len[0], len[1..]);
    }
  }

  lemma {:induction false} TablesSize(len: seq<seq<int>>, alphaSize: nat)
    requires (forall t :: 0 <= t < |len| ==> Decodable(len[t], alphaSize)) && Short(len)
    ensures |AllTableBits(len)| <= 8519 * |len|
  {
    if len != [] {
      assert Decodable(len[0], alphaSize);
      assert forall t :: 0 <= t < |len[1..]| ==> len[1..][t] == len[t + 1];
      if len[0] != [] { LengthsSize(len[0][0], len[0]); }
      TablesSize(len[1..], alphaSize);
    }
  }

  lemma {:induction false} DataSize(syms: seq<int>, sel: seq<int>, len: seq<seq<int>>, k: nat)
    requires k <= |syms| && Short(len)
    ensures |DataBits(syms, sel, len, k)| <= 17 * (|syms| - k)
    decreases |syms| - k
  {
    hide SymbolBits, Short;
    if k < |syms| {
      DataSize(syms, sel, len, k + 1);
      SymbolSize(syms, sel, len, k);
    }
  }

  lemma SymbolSize(syms: seq<int>, sel: seq<int>, len: seq<seq<int>>, k: nat)
    requires k < |syms| && Short(len)
    ensures |SymbolBits(syms, sel, len, k)| <= 17
  {
  }

  lemma SelectorsSize(k: Block)
    requires Selectors(k.selector, k.nGroups)
    ensures |SelectorBits(k.nGroups, k.selector)| <= 18 + 6 * |k.selector|
  {
    UnariesSize(SelectorMtf(k.selector, Initial(k.nGroups)));
  }

  /** The bits of a block, whatever its bytes and its coding tables. */
  lemma BlockSize(k: Block, b: seq<Byte>, p: seq<int>)
    requires Sends(k, b, p) && |k.inUse| == 256
    ensures |BlockBits(k)| <= 18 * |b| + FIXED_BITS
  {
    hide AllTableBits, DataBits, SelectorBits, MemberBits, ME.Used, EncodeAll;
    var codes, n := ME.CodesOf(k.inUse, LastColumn(b, p)), |ME.Used(k.inUse)|;
    SymbolsShort(codes, n);
    MembersSize(k.inUse, 0);
    SelectorsSize(k);
    TablesSize(k.len, n + 2);
    DataSize(k.syms, k.selector, k.len, 0);
    HeaderSize(k);
  }

  lemma HeaderSize(k: Block)
    ensures |HeaderBits(k.crc, k.origPtr)| == 105
  {
    assert |MagicBits(7)| == 0;
    assert |MagicBits(4)| == 24;
  }

  /** Room for the block and its bits in arr2, and more than the stream's own header and trailer need. */
  lemma BlockRoom(nblock: nat, bits: nat, blockSize100k: int)
    requires 1 <= blockSize100k <= 9 && nblock <= 100000 * blockSize100k
    requires 8 * bits <= 18 * nblock + FIXED_BITS + 200
    ensures nblock + bits <= 4 * (100000 * blockSize100k + N_OVERSHOOT)
  {
  }

  // ----- the whole stream -----

  /** All blocks but the last of an ended stream were cut because they were full. */
  ghost predicate Thick(items: seq<Item>, blockSize100k: int, ended: bool) {
    forall i :: 0 <= i < |items| - (if ended then 1 else 0) ==> |items[i].b| >= 100000 * blockSize100k - 19
  }

  lemma ThickNext(items: seq<Item>, i: Item, blockSize100k: int)
    requires Thick(items, blockSize100k, false)
    ensures Thick(items + [i], blockSize100k, true)
    ensures |i.b| >= 100000 * blockSize100k - 19 ==> Thick(items + [i], blockSize100k, false)
  {
  }

  /** Four bytes of data never make more than five bytes of block. */
  lemma {:induction false} BlockGrowth(b: seq<Byte>)
    ensures ReadAll(b).k <= 4 && 4 * |b| + ReadAll(b).k <= 5 * |RunDecode(b)|
  {
    if b != [] { BlockGrowth(b[..|b| - 1]); }
  }

  lemma ItemSize(i: Item, blockSize100k: int)
    requires Good(i, blockSize100k)
    ensures |ItemBits(i)| <= 18 * |i.b| + FIXED_BITS && 4 * |i.b| <= 5 * |RunDecode(i.b)|
  {
    hide BlockBits, Sends, RunDecode, CrcOf;
    BlockSize(i.k, i.b, i.p);
    BlockGrowth(i.b);
  }

  /** The blocks of a stream, against its data. */
  lemma {:induction false} ItemsSize(items: seq<Item>, blockSize100k: int, ended: bool)
    requires 1 <= blockSize100k <= 9 && AllGood(items, blockSize100k) && Thick(items, blockSize100k, ended)
    ensures 4 * |ItemsBits(items)| <= 95 * |Content(items)| + if ended then 4 * FIXED_BITS else 0
  {
    hide Good, ItemBits, RunDecode;
    if items != [] {
      assert Good(items[0], blockSize100k);
      ItemSize(items[0], blockSize100k);
      ItemsSize(items[1..], blockSize100k, ended);
    }
  }
}
