/**
  A whole compressed stream: header, blocks and trailer (BZ2_compressBlock, dep/bzip2/compress.c,
  lines 619-667), and how the decoding machine reads its outer parts (dep/bzip2/decompress.c,
  lines 199-229 and 574-608).
*/
module StreamFormat {
  import opened Common
  import opened BitIO
  import opened RunLength
  import opened Decompress
  import opened BlockFormat
  import opened BlockRoundTrip
  import opened WholeBlock

  /** A block in the stream: its description, its bytes, and the order its rotations were sorted into. */
  datatype Item = Item(k: Block, b: seq<Byte>, p: seq<int>)

  /** The block's CRC, as both sides compute it from the data. */
  function DataCrc(b: seq<Byte>): Crc {
    FinalCrc(CrcOf(RunDecode(b)))
  }

  ghost predicate Good(i: Item, blockSize100k: int) {
    && Sends(i.k, i.b, i.p) && |i.k.inUse| == 256 && Complete(i.b) && |i.b| <= 100000 * blockSize100k
    && i.k.crc == CrcValue(DataCrc(i.b))
  }

  ghost predicate AllGood(items: seq<Item>, blockSize100k: int) {
    forall i :: 0 <= i < |items| ==> Good(items[i], blockSize100k)
  }

  /** The data of all blocks. */
  ghost function Content(items: seq<Item>): seq<Byte> {
    if items == [] then [] else RunDecode(items[0].b) + Content(items[1..])
  }

  /** The combined CRC, continued over the blocks. */
  ghost function Combined(crc: Crc, items: seq<Item>): Crc
    decreases |items|
  {
    if items == [] then crc else Combined(CombineCrc(crc, DataCrc(items[0].b)), items[1..])
  }

  ghost function ItemBits(i: Item): Bits {
    if |i.k.inUse| == 256 then BlockBits(i.k) else []
  }

  ghost function ItemsBits(items: seq<Item>): Bits {
    if items == [] then [] else ItemBits(items[0]) + ItemsBits(items[1..])
  }

  function StreamHeader(blockSize100k: int): Bits
    requires 1 <= blockSize100k <= 9
  {
    BitsOf(8, 0x42) + BitsOf(8, 0x5a) + BitsOf(8, 0x68) + BitsOf(8, 0x30 + blockSize100k)
  }

  function EndBits(k: nat): Bits
    decreases 7 - k
  {
    if k > 6 then [] else BitsOf(8, EndByte(k)) + EndBits(k + 1)
  }

  function Trailer(crc: nat): Bits {
    EndBits(1) + BitsOf(32, crc)
  }

  // ----- one more block -----

  lemma {:induction false} ContentAppend(items: seq<Item>, i: Item)
    ensures Content(items + [i]) == Content(items) + RunDecode(i.b)
    decreases |items|
  {
    hide RunDecode;
    if items == [] {
      assert (items + [i])[1..] == [];
      assert Content(items + [i]) == RunDecode(i.b) + Content([]);
    } else {
      assert (items + [i])[1..] == items[1..] + [i];
      ContentAppend(items[1..], i);
      assert RunDecode(items[0].b) + (Content(items[1..]) + RunDecode(i.b)) == Content(items) + RunDecode(i.b);
    }
  }

  lemma {:induction false} CombinedAppend(crc: Crc, items: seq<Item>, i: Item)
    ensures Combined(crc, items + [i]) == CombineCrc(Combined(crc, items), DataCrc(i.b))
    decreases |items|
  {
    hide CombineCrc, DataCrc;
    if items == [] {
      assert (items + [i])[1..] == [];
    } else {
      assert (items + [i])[1..] == items[1..] + [i];
      CombinedAppend(CombineCrc(crc, DataCrc(items[0].b)), items[1..], i);
    }
  }

  lemma {:induction false} ItemsAppend(items: seq<Item>, i: Item)
    ensures ItemsBits(items + [i]) == ItemsBits(items) + ItemBits(i)
    decreases |items|
  {
    hide ItemBits;
    if items == [] {
      assert (items + [i])[1..] == [];
      assert ItemsBits(items + [i]) == ItemBits(i) + ItemsBits([]);
    } else {
      assert (items + [i])[1..] == items[1..] + [i];
      ItemsAppend(items[1..], i);
      assert ItemBits(items[0]) + (ItemsBits(items[1..]) + ItemBits(i)) == ItemsBits(items) + ItemBits(i);
    }
  }

  // ----- reading header and trailer -----

  lemma ReadStreamHeader(blockSize100k: int, s: Saved, rest: Bits)
    requires 1 <= blockSize100k <= 9
    ensures Run(Running(Magic(1), s), StreamHeader(blockSize100k) + rest) ==
            Run(Running(BlkHdr(1), s.(blockSize100k := blockSize100k)), rest)
  {
    hide Run, BitsOf;
    Pow2Eight();
    var b1, b2, b3, b4 := BitsOf(8, 0x42), BitsOf(8, 0x5a), BitsOf(8, 0x68), BitsOf(8, 0x30 + blockSize100k);
    assert StreamHeader(blockSize100k) + rest == b1 + (b2 + (b3 + (b4 + rest)));
    RunField(Magic(1), s, 0x42, b2 + (b3 + (b4 + rest)));
    RunField(Magic(2), s, 0x5a, b3 + (b4 + rest));
    RunField(Magic(3), s, 0x68, b4 + rest);
    RunField(Magic(4), s, 0x30 + blockSize100k, rest);
  }

  lemma {:induction false} ReadEnd(s: Saved, k: nat, rest: Bits)
    requires 2 <= k <= 6
    ensures Run(Running(EndHdr(k), s), EndBits(k) + rest) == Run(Running(CCrc(1), s.(storedCRC := 0)), rest)
    decreases 7 - k
  {
    hide Run, BitsOf;
    assert EndBits(k) + rest == BitsOf(8, EndByte(k)) + (EndBits(k + 1) + rest);
    Pow2Eight();
    RunField(EndHdr(k), s, EndByte(k), EndBits(k + 1) + rest);
    if k < 6 {
      ReadEnd(s, k + 1, rest);
    } else {
      assert EndBits(k + 1) + rest == rest;
    }
  }

  lemma CombinedStep(s: Saved, k: nat, v: nat)
    requires k < 4
    ensures var s' := s.(storedCRC := s.storedCRC * 256 + v);
            Need(CCrc(k + 1)) == 8 && Step(CCrc(k + 1), s, v) == if k < 3 then Running(CCrc(k + 2), s') else StreamEnd(s')
  {
  }

  lemma {:induction false} ReadCombined(s: Saved, w: Bits, k: nat, o: nat, rest: Bits)
    requires |w| == 32 && k < 4 && o == 8 * k && s.storedCRC == ValueOf(w[..o])
    ensures Run(Running(CCrc(k + 1), s), w[o..] + rest) == Run(StreamEnd(s.(storedCRC := ValueOf(w))), rest)
    decreases 4 - k
  {
    hide ValueOf, Run, Step, Need;
    var byte, tail := w[o..o + 8], w[o + 8..] + rest;
    assert w[o..] + rest == byte + tail;
    CombinedStep(s, k, ValueOf(byte));
    RunBits(CCrc(k + 1), s, byte, tail);
    NextByte(w, k);
    var s' := s.(storedCRC := ValueOf(w[..o + 8]));
    if k < 3 {
      ReadCombined(s', w, k + 1, o + 8, rest);
    } else {
      assert w[..32] == w && tail == rest;
    }
  }

  /** The trailer ends the stream, with the combined CRC it carries. */
  lemma ReadTrailer(s: Saved, crc: nat, rest: Bits)
    requires crc < 0x1_0000_0000
    ensures Run(Running(BlkHdr(1), s), Trailer(crc) + rest) == (StreamEnd(s.(storedCRC := crc)), rest)
  {
    hide Run, BitsOf, ValueOf;
    Pow32();
    Pow2Eight();
    hide Pow2;
    var c := BitsOf(32, crc);
    ValueOfBits(32, crc);
    assert EndBits(1) == BitsOf(8, EndByte(1)) + EndBits(2);
    assert Trailer(crc) + rest == BitsOf(8, EndByte(1)) + (EndBits(2) + (c + rest));
    RunField(BlkHdr(1), s, EndByte(1), EndBits(2) + (c + rest));
    ReadEnd(s, 2, c + rest);
    EmptyValue(c);
    assert c[0..] == c;
    ReadCombined(s.(storedCRC := 0), c, 0, 0, rest);
    RunStops(StreamEnd(s.(storedCRC := crc)), rest);
  }

  lemma Pow32()
    ensures Pow2(32) == 0x1_0000_0000
  {
    Pow2Eight();
    assert Pow2(16) == 65536 by { Pow2Add(8, 8); }
    Pow2Add(16, 16);
  }
}
