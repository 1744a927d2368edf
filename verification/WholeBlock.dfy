/**
  The whole-block round trip: sorting, move-to-front and zero-run coding, table transmission and
  canonical codes, read back by the decoding machine and inverted, give the same bytes
  (dep/bzip2/compress.c, lines 602-667; dep/bzip2/decompress.c, lines 199-556).
*/
module WholeBlock {
  import opened Common
  import opened BitIO
  import opened Counting
  import opened Rotation
  import opened InverseBwt
  import opened Mtf
  import ME = MtfEncoder
  import opened Decompress
  import opened BlockFormat
  import opened BlockRoundTrip

  /** k is what the compressor sends for block b, sorted as p. */
  ghost predicate Sends(k: Block, b: seq<Byte>, p: seq<int>) {
    var n := |ME.Used(k.inUse)|;
    && 0 < |b| <= 900000 && SortedRotations(b, p)
    && k.crc < Pow2(32) && k.origPtr < |p| && p[k.origPtr] == 0
    && ME.Marks(k.inUse, b)
    && Selectors(k.selector, k.nGroups)
    && |k.len| == k.nGroups && (forall t :: 0 <= t < |k.len| ==> Decodable(k.len[t], n + 2)) && Short(k.len)
    && |k.selector| == (|k.syms| + 49) / 50
    && Codes(ME.CodesOf(k.inUse, LastColumn(b, p)), n)
    && k.syms == Symbols(ME.CodesOf(k.inUse, LastColumn(b, p)), n)
  }

  lemma {:induction false} UsedSome(u: seq<bool>, c: nat)
    requires c < |u| && u[c]
    ensures |ME.Used(u)| > 0
  {
    ME.UsedPrefix(u, c);
  }

  lemma ColumnMarks(u: seq<bool>, b: seq<Byte>, p: seq<int>)
    requires ME.Marks(u, b) && SortedRotations(b, p)
    ensures ME.Marks(u, LastColumn(b, p))
  {
    var l := LastColumn(b, p);
    forall i | 0 <= i < |l| ensures u[l[i]] {
      assert l[i] == b[Unshift(|b|, p[i], 1)];
    }
  }

  /** Mapping the codes back gives the column. */
  lemma UnmappedCodes(u: seq<bool>, l: seq<Byte>)
    requires ME.Marks(u, l)
    ensures Unmapped(ME.Used(u), ME.CodesOf(u, l)) == l
  {
    hide ME.Used, ME.CodesOf;
    var r := Unmapped(ME.Used(u), ME.CodesOf(u, l));
    forall i | 0 <= i < |l| ensures r[i] == l[i] {
      ME.CodesInvert(u, l, i);
    }
  }

  lemma SendsFits(k: Block, b: seq<Byte>, p: seq<int>, blockSize100k: int)
    requires Sends(k, b, p) && |b| <= 100000 * blockSize100k
    ensures Fits(k, blockSize100k) && Unmapped(ME.Used(k.inUse), ColumnOf(k).col) == LastColumn(b, p)
  {
    hide ME.Used, LastColumn, ME.CodesOf, Symbols, DecodeFrom;
    var u, l := k.inUse, LastColumn(b, p);
    var n, codes := |ME.Used(u)|, ME.CodesOf(u, l);
    ColumnMarks(u, b, p);
    UsedSome(u, b[0]);
    UnmappedCodes(u, l);
    SymbolsRoundTrip(codes, n, 256);
    Pow24();
  }

  lemma Pow24()
    ensures Pow2(24) == 16777216
  {
    assert Pow2(12) == 4096;
    Pow2Add(12, 12);
  }

  /**
    The round trip of a block, for every block, every non-strict sort of its rotations, and every
    valid choice of coding tables and selectors: from the block header on the decoder reads
    exactly the bits of the block; and from the column it hands on, any stable T^-1 walked from
    the transmitted origPtr spells the block.
  */
  lemma BlockComesBack(k: Block, b: seq<Byte>, p: seq<int>, s: Saved, rest: Bits)
    requires Sends(k, b, p) && |b| <= 100000 * s.blockSize100k
    ensures Sound(k)
    ensures Run(Running(BlkHdr(1), s), BlockBits(k) + rest) == (Output(BlockRead(s, k), LastColumn(b, p)), rest)
    ensures BlockRead(s, k).origPtr == k.origPtr && BlockRead(s, k).storedCRC == k.crc && !BlockRead(s, k).blockRandomised
    ensures forall t, i :: Stable(LastColumn(b, p), t) && 0 <= i < |b| ==>
              Emitted(LastColumn(b, p), t, k.origPtr, i) == b[i]
  {
    SendsFits(k, b, p, s.blockSize100k);
    ReadBlock(s, k, rest);
    forall t, i | Stable(LastColumn(b, p), t) && 0 <= i < |b|
      ensures Emitted(LastColumn(b, p), t, k.origPtr, i) == b[i]
    {
      InverseCorrect(b, p, t, k.origPtr, i);
    }
  }

  /** On what the compressor sends for a block the decoder never strays. */
  lemma SendsTame(k: Block, b: seq<Byte>, p: seq<int>, s: Saved, rest: Bits)
    requires Sends(k, b, p) && |b| <= 100000 * s.blockSize100k
    ensures |k.inUse| == 256 && Tame(Running(BlkHdr(1), s), BlockBits(k) + rest)
  {
    hide Run, Tame, BlockBits, BlockRead, Stable, Emitted, FreeRun;
    BlockComesBack(k, b, p, s, rest);
    StraysExactly(Running(BlkHdr(1), s), BlockBits(k) + rest);
  }
}
