/**
  What the compressor has delivered is at every moment the beginning of a stream of the data, and
  its size is linear in what it has consumed: consequences of the invariant of EState
  (dep/bzip2/bzlib.c, lines 360-464) for a caller whose buffer is too small, or large enough.
*/
module Continuation {
  import opened Common
  import opened BitIO
  import opened HuffmanTree
  import opened Rotation
  import opened InverseBwt
  import opened RunLength
  import opened Mtf
  import opened BlockFormat
  import opened WholeBlock
  import opened StreamFormat
  import opened OutputBound
  import opened Stream
  import ME = MtfEncoder

  // ----- more blocks can always follow -----

  /** Codes of nine bits for any alphabet. */
  lemma {:induction false} NineBits(m: nat)
    ensures Kraft(Repeat(9, m), 20) == m * Pow2(11)
  {
    if m > 0 {
      NineBits(m - 1);
      assert Repeat(9, m)[..m - 1] == Repeat(9, m - 1);
    }
  }

  lemma NineBitsDecodable(m: nat)
    requires m <= 258
    ensures Decodable(Repeat(9, m), m) && Short([Repeat(9, m), Repeat(9, m)])
  {
    NineBits(m);
    assert Pow2(4) == 16;
    Pow2Add(4, 4);
    Pow2Add(1, 8);
    Pow2Add(9, 11);
    assert m * Pow2(11) <= Pow2(9) * Pow2(11);
  }

  /** The codes and symbols of one byte. */
  lemma SoloSymbols(c: Byte, u: seq<bool>)
    requires |u| == 256 && u[c]
    ensures SortedRotations([c], [0]) && ME.Marks(u, [c]) && 0 < |ME.Used(u)|
    ensures Codes(ME.CodesOf(u, LastColumn([c], [0])), |ME.Used(u)|)
    ensures |Symbols(ME.CodesOf(u, LastColumn([c], [0])), |ME.Used(u)|)| in {1, 2}
  {
    hide ME.Used, EncodeAll, ME.CodesOf;
    ColumnMarks(u, [c], [0]);
    ME.CodesFit(u, LastColumn([c], [0]));
    UsedSome(u, c);
    SymbolsShort(ME.CodesOf(u, LastColumn([c], [0])), |ME.Used(u)|);
  }

  /** A block of one byte, described in one of the possible ways. */
  lemma SoloItem(c: Byte, blockSize100k: int) returns (i: Item)
    requires 1 <= blockSize100k <= 9
    ensures Good(i, blockSize100k) && RunDecode(i.b) == [c]
  {
    hide ME.Used, ME.CodesOf, CrcOf, Kraft, Symbols, LastColumn, SortedRotations, Codes, Decodable, Short, RunDecode;
    var u := seq(256, (x: int) => x == c);
    RunOfOne(c);
    SoloSymbols(c, u);
    var n := |ME.Used(u)|;
    NineBitsDecodable(n + 2);
    Pow32();
    i := Item(Block(CrcValue(DataCrc([c])), 0, u, 2, [0], [Repeat(9, n + 2), Repeat(9, n + 2)],
                    Symbols(ME.CodesOf(u, LastColumn([c], [0])), n)), [c], [0]);
  }

  lemma Pow32()
    ensures Pow2(32) == 0x1_0000_0000
  {
    assert Pow2(8) == 256;
    Pow2Add(8, 8);
    Pow2Add(16, 16);
  }

  lemma RunOfOne(c: Byte)
    ensures RunDecode([c]) == [c] && Complete([c])
  {
    assert [c][..0] == [];
    assert ReadAll([]) == Reading([], 256, 0);
    assert [] + [c] == [c];
  }

  /** After any blocks any data can follow. */
  lemma {:induction false} MoreItems(items: seq<Item>, d: seq<Byte>, blockSize100k: int) returns (all: seq<Item>)
    requires 1 <= blockSize100k <= 9 && AllGood(items, blockSize100k)
    ensures AllGood(all, blockSize100k) && Content(all) == Content(items) + d && ItemsBits(items) <= ItemsBits(all)
    decreases |d|
  {
    hide Good, RunDecode, ItemBits;
    if d == [] {
      all := items;
      assert Content(items) + d == Content(items);
    } else {
      var i := SoloItem(d[0], blockSize100k);
      ContentAppend(items, i);
      ItemsAppend(items, i);
      all := MoreItems(items + [i], d[1..], blockSize100k);
      assert Content(items) + [d[0]] + d[1..] == Content(items) + d;
    }
  }

  // ----- bytes of bits -----

  lemma {:induction false} Packed(bits: Bits) returns (s: seq<Byte>)
    requires |bits| % 8 == 0
    ensures Unpacked(s) == bits
    decreases |bits|
  {
    hide BitsOf;
    if bits == [] {
      s := [];
    } else {
      var k := |bits| - 8;
      var top := Packed(bits[..k]);
      Pow2Eight();
      BitsOfValue(bits[k..]);
      s := top + [ValueOf(bits[k..])];
      assert s[..|s| - 1] == top;
    }
  }

  /** Bytes whose bits begin a sequence of whole bytes begin those bytes. */
  lemma PackedFrom(bytes: seq<Byte>, bits: Bits) returns (full: seq<Byte>)
    requires |bits| % 8 == 0 && Unpacked(bytes) <= bits
    ensures bytes <= full && Unpacked(full) == bits
  {
    var tail := bits[8 * |bytes|..];
    var s := Packed(tail);
    full := bytes + s;
    UnpackedConcat(bytes, s);
  }

  /** Blocks that have been written, closed behind more data. */
  lemma Continues(bytes: seq<Byte>, bits: Bits, blockSize100k: int, items: seq<Item>, d: seq<Byte>)
    returns (full: seq<Byte>, all: seq<Item>)
    requires Unpacked(bytes) <= bits && Carries(bits, blockSize100k, true, items)
    ensures bytes <= full && StreamOf(Unpacked(full), blockSize100k, all) && Content(all) == Content(items) + d
  {
    hide StreamHeader, ItemsBits, Trailer, AllGood, Content, Unpacked, Combined, CrcValue;
    all := MoreItems(items, d, blockSize100k);
    var open := StreamHeader(blockSize100k) + ItemsBits(all) + Trailer(CrcValue(Combined(0, all)));
    var pad := (8 - |open| % 8) % 8;
    assert bits <= open + Zeros(pad) by {
      var rest := ItemsBits(all)[|ItemsBits(items)|..];
      assert ItemsBits(all) == ItemsBits(items) + rest;
      assert open + Zeros(pad) == bits + (rest + Trailer(CrcValue(Combined(0, all))) + Zeros(pad));
    }
    full := PackedFrom(bytes, open + Zeros(pad));
  }

  /** The bytes begin a stream of the data. */
  ghost predicate Begins(bytes: seq<Byte>, data: seq<Byte>) {
    exists full, blockSize100k, items :: bytes <= full && StreamOf(Unpacked(full), blockSize100k, items) && Content(items) == data
  }

  lemma BeginsHere(bytes: seq<Byte>, full: seq<Byte>, blockSize100k: int, items: seq<Item>, data: seq<Byte>)
    requires bytes <= full && StreamOf(Unpacked(full), blockSize100k, items) && Content(items) == data
    ensures Begins(bytes, data)
  {
  }

  lemma WhileCollecting(strm: EState, rest: seq<Byte>)
    requires strm.state == Input && strm.Collecting()
    ensures Begins(strm.Emitted(), strm.consumed + rest)
  {
    hide Carries, StreamOf, Content, Unpacked, BlockBuffer.Valid, StreamHeader, Begins;
    strm.NonNegativeBlock();
    var bits, folded := Unpacked(strm.earlier) + strm.w.Contents(), strm.buf.Folded();
    if strm.blockNo == 1 {
      CarriesHeader(bits, strm.blockSize100k, strm.items);
      bits := bits + StreamHeader(strm.blockSize100k);
    }
    var full, all := Continues(strm.earlier, bits, strm.blockSize100k, strm.items, folded + rest);
    assert strm.earlier + [] == strm.earlier;
    assert Content(strm.items) + (folded + rest) == (Content(strm.items) + folded) + rest;
    BeginsHere(strm.Emitted(), full, strm.blockSize100k, all, strm.consumed + rest);
  }

  lemma WhileDraining(strm: EState, rest: seq<Byte>)
    requires strm.state == Output && strm.Draining() && (strm.ended ==> rest == [])
    ensures Begins(strm.Emitted(), strm.consumed + rest)
  {
    hide Carries, StreamOf, Content, Unpacked, BlockBuffer.Valid, StreamHeader, Begins;
    UnpackedConcat(strm.earlier, strm.w.zbits);
    var e, z, pending := strm.earlier, strm.w.zbits, strm.buf.Pending();
    assert strm.Emitted() <= e + z;
    var full, all := e + z, strm.items;
    if !strm.ended {
      var live := strm.w.bsBuff[..strm.w.bsLive];
      assert Unpacked(e) + (Unpacked(z) + live) == Unpacked(e + z) + live;
      full, all := Continues(e + z, Unpacked(e) + strm.w.Contents(), strm.blockSize100k, strm.items, pending + rest);
    }
    assert Content(strm.items) + (pending + rest) == (Content(strm.items) + pending) + rest;
    assert Content(strm.items) + [] == Content(strm.items) && pending + [] == pending;
    BeginsHere(strm.Emitted(), full, strm.blockSize100k, all, strm.consumed + rest);
  }

  /**
    At every moment of every run, what has been delivered begins a stream of the data consumed so
    far, and of that data followed by any other, unless the trailer is already written.
  */
  lemma Delivered(strm: EState, rest: seq<Byte>)
    requires strm.Valid() && (strm.ended ==> rest == [])
    ensures Begins(strm.Emitted(), strm.consumed + rest)
  {
    hide EState.Collecting, EState.Draining, Begins, EState.Emitted;
    if strm.state == Input {
      WhileCollecting(strm, rest);
    } else {
      WhileDraining(strm, rest);
    }
  }

  /** A finish that has written the trailer has taken all its input. */
  lemma TrailerLast(strm: EState)
    requires strm.Valid() && strm.ended
    ensures strm.avail_in_expect == 0
  {
    hide Carries, StreamOf, Content, Unpacked, BlockBuffer.Valid, Thick;
  }

  /** Where no flush has been asked for, the output is linear in the input. */
  lemma Bounded(strm: EState)
    requires strm.Valid() && !strm.flushed
    ensures |strm.Emitted()| <= 3 * |strm.consumed| + 6515
  {
    hide Content, Unpacked, BlockBuffer.Valid, StreamHeader, Trailer, ItemsBits, AllGood, Thick;
    ItemsSize(strm.items, strm.blockSize100k, strm.state == Output && strm.ended);
    strm.HeaderLength();
    strm.SomeBits(CrcValue(Combined(0, strm.items)));
  }
}
