/**
  Whole compressed streams in plain bytes, which the format comes down to (dep/bzip2/compress.c,
  lines 240-667): the only streams of no data, and one of a single letter a.
*/
module KnownStreams {
  import opened Common
  import opened BitIO
  import opened RunLength
  import opened Rotation
  import opened Mtf
  import opened BlockFormat
  import opened BlockRoundTrip
  import opened StreamFormat
  import opened Decompress
  import opened InverseBwt
  import ME = MtfEncoder
  import CC = CanonicalCode
  import DT = DecodeTables
  import HuffmanTree
  import S = Stream
  import opened BuffToBuff

  // ----- numbers for bits -----

  /** The bits are the number x, most significant bit first. */
  ghost predicate Is(b: Bits, n: nat, x: nat) {
    |b| == n && x < Pow2(n) && b == BitsOf(n, x)
  }

  lemma Joined(a: Bits, m: nat, x: nat, b: Bits, n: nat, y: nat)
    requires Is(a, m, x) && Is(b, n, y)
    ensures Is(a + b, m + n, x * Pow2(n) + y)
  {
    hide BitsOf, ValueOf;
    ValueOfBits(m, x);
    ValueOfBits(n, y);
    ValueConcat(a, b);
    BitsOfValue(a + b);
    assert x * Pow2(n) + y == ValueOf(a + b) < Pow2(|a + b|);
  }

  function NumberOf(s: seq<Byte>): nat {
    if s == [] then 0 else 256 * NumberOf(s[..|s| - 1]) + s[|s| - 1]
  }

  lemma {:induction false} UnpackedNumber(s: seq<Byte>)
    ensures Is(Unpacked(s), 8 * |s|, NumberOf(s))
  {
    hide BitsOf;
    Pow2Eight();
    if s != [] {
      UnpackedNumber(s[..|s| - 1]);
      Joined(Unpacked(s[..|s| - 1]), 8 * (|s| - 1), NumberOf(s[..|s| - 1]), BitsOf(8, s[|s| - 1]), 8, s[|s| - 1]);
    } else {
      assert Unpacked([]) == [] == BitsOf(0, 0);
    }
  }

  lemma SameNumber(a: Bits, b: Bits, n: nat, x: nat)
    requires Is(a, n, x) && Is(b, n, x)
    ensures a == b
  {
  }

  // ----- the streams of no data -----

  /** A block is never written for nothing. */
  lemma {:induction false} SomeData(b: seq<Byte>)
    requires b != []
    ensures RunDecode(b) != []
    decreases |b|
  {
    var a := b[..|b| - 1];
    if a == [] {
      assert ReadAll(a) == Reading([], 256, 0);
    } else {
      SomeData(a);
    }
  }

  lemma NoItems(items: seq<Item>, blockSize100k: int)
    requires AllGood(items, blockSize100k) && Content(items) == []
    ensures items == []
  {
    hide RunDecode;
    if items != [] {
      assert Good(items[0], blockSize100k);
      SomeData(items[0].b);
    }
  }

  lemma Field(n: nat, v: nat)
    requires v < Pow2(n)
    ensures Is(BitsOf(n, v), n, v)
  {
  }

  lemma Powers()
    ensures Pow2(1) == 2 && Pow2(3) == 8 && Pow2(4) == 16 && Pow2(5) == 32 && Pow2(8) == 0x100 && Pow2(10) == 0x400
    ensures Pow2(15) == 0x8000 && Pow2(16) == 0x1_0000 && Pow2(24) == 0x100_0000 && Pow2(32) == 0x1_0000_0000
    ensures Pow2(0) == 1 && Pow2(40) == 0x100_0000_0000 && Pow2(48) == 0x1_0000_0000_0000 && Pow2(80) == 0x1_0000_0000_0000_0000_0000
  {
    hide Pow2;
    Pow2Small();
    Pow2Add(5, 3);
    Pow2Add(5, 5);
    Pow2Add(8, 8);
    Pow2Add(16, 8);
    Pow2Add(16, 16);
    Pow2Add(32, 8);
    Pow2Add(32, 16);
    Pow2Add(48, 32);
    Pow2Add(10, 5);
  }

  lemma Pow2Small()
    ensures Pow2(0) == 1 && Pow2(1) == 2 && Pow2(3) == 8 && Pow2(4) == 16 && Pow2(5) == 32
  {
  }

  /** BZh and the block size. */
  lemma HeaderIs(k: int)
    requires 1 <= k <= 9
    ensures Is(StreamHeader(k), 32, 0x425a6830 + k)
  {
    hide BitsOf, Is;
    Powers();
    Field(8, 0x42);
    Field(8, 0x5a);
    Field(8, 0x68);
    Field(8, 0x30 + k);
    var a, b, c, d := BitsOf(8, 0x42), BitsOf(8, 0x5a), BitsOf(8, 0x68), BitsOf(8, 0x30 + k);
    Joined(a, 8, 0x42, b, 8, 0x5a);
    Joined(a + b, 16, 0x425a, c, 8, 0x68);
    Joined(a + b + c, 24, 0x425a68, d, 8, 0x30 + k);
  }

  /** The end mark: the digits of the square root of pi. */
  lemma EndIs()
    ensures Is(EndBits(1), 48, 0x177245385090)
  {
    hide BitsOf, Is, EndBits, Pow2;
    Powers();
    EndLast();
    EndNext(6, 0x90, 0, 0);
    EndNext(5, 0x50, 8, 0x90);
    EndNext(4, 0x38, 16, 0x5090);
    EndNext(3, 0x45, 24, 0x385090);
    EndNext(2, 0x72, 32, 0x45385090);
    EndNext(1, 0x17, 40, 0x7245385090);
  }

  lemma EndNext(k: nat, v: nat, n: nat, x: nat)
    requires 1 <= k <= 6 && v == EndByte(k) && Is(EndBits(k + 1), n, x)
    ensures Is(EndBits(k), n + 8, v * Pow2(n) + x)
  {
    hide BitsOf, Is, Pow2;
    Powers();
    Field(8, v);
    Joined(BitsOf(8, v), 8, v, EndBits(k + 1), n, x);
  }

  lemma EndLast()
    ensures Is(EndBits(7), 0, 0)
  {
  }

  lemma TrailerIs(crc: nat)
    requires crc < Pow2(32)
    ensures Is(Trailer(crc), 80, 0x1772453850900000_0000 + crc)
  {
    hide BitsOf, Is, EndBits;
    Powers();
    EndIs();
    Field(32, crc);
    Joined(EndBits(1), 48, 0x177245385090, BitsOf(32, crc), 32, crc);
  }

  function EmptyStream(k: int): seq<Byte>
    requires 1 <= k <= 9
  {
    [0x42, 0x5a, 0x68, 0x30 + k, 0x17, 0x72, 0x45, 0x38, 0x50, 0x90, 0, 0, 0, 0]
  }

  /** Four bytes, the first one on top. */
  function WordOf(a: Byte, b: Byte, c: Byte, d: Byte): nat {
    0x100_0000 * a + 0x1_0000 * b + 0x100 * c + d
  }

  lemma WordIs(a: Byte, b: Byte, c: Byte, d: Byte)
    ensures Is(Unpacked([a, b, c, d]), 32, WordOf(a, b, c, d))
  {
    hide BitsOf, Is;
    UnpackedNumber([a, b, c, d]);
    assert [a, b, c, d][..3] == [a, b, c] && [a, b, c][..2] == [a, b] && [a, b][..1] == [a] && [a][..0] == [];
    assert NumberOf([]) == 0;
    assert NumberOf([a]) == a;
    assert NumberOf([a, b]) == 0x100 * a + b;
    assert NumberOf([a, b, c]) == 0x1_0000 * a + 0x100 * b + c;
  }

  /** Bytes read on by four. */
  lemma NextWord(s: seq<Byte>, n: nat, x: nat, a: Byte, b: Byte, c: Byte, d: Byte)
    requires Is(Unpacked(s), n, x)
    ensures Is(Unpacked(s + [a, b, c, d]), n + 32, x * 0x1_0000_0000 + WordOf(a, b, c, d))
  {
    hide BitsOf, Is, WordOf;
    Powers();
    WordIs(a, b, c, d);
    UnpackedConcat(s, [a, b, c, d]);
    Joined(Unpacked(s), n, x, Unpacked([a, b, c, d]), 32, WordOf(a, b, c, d));
  }

  lemma NextByte(s: seq<Byte>, n: nat, x: nat, a: Byte)
    requires Is(Unpacked(s), n, x)
    ensures Is(Unpacked(s + [a]), n + 8, x * 0x100 + a)
  {
    hide BitsOf, Is;
    Powers();
    Field(8, a);
    assert (s + [a])[..|s|] == s;
    Joined(Unpacked(s), n, x, BitsOf(8, a), 8, a);
  }

  lemma EmptyNumber(k: int)
    requires 1 <= k <= 9
    ensures Is(Unpacked(EmptyStream(k)), 112, (0x425a6830 + k) * 0x1_0000_0000_0000_0000_0000 + 0x17724538509000000000)
  {
    hide BitsOf, Is, Unpacked, WordOf;
    var x := 0x425a6830 + k;
    var h: seq<Byte> := [0x42, 0x5a, 0x68, 0x30 + k];
    Words(k);
    WordIs(0x42, 0x5a, 0x68, 0x30 + k);
    NextWord(h, 32, x, 0x17, 0x72, 0x45, 0x38);
    var h1 := h + [0x17, 0x72, 0x45, 0x38];
    var x1 := x * 0x1_0000_0000 + 0x17724538;
    NextWord(h1, 64, x1, 0x50, 0x90, 0, 0);
    var h2 := h1 + [0x50, 0x90, 0, 0];
    var x2 := x1 * 0x1_0000_0000 + 0x50900000;
    NextByte(h2, 96, x2, 0);
    NextByte(h2 + [0], 104, x2 * 0x100, 0);
    assert h2 + [0] + [0] == EmptyStream(k);
  }

  lemma Words(k: int)
    requires 1 <= k <= 9
    ensures WordOf(0x42, 0x5a, 0x68, 0x30 + k) == 0x425a6830 + k && WordOf(0x17, 0x72, 0x45, 0x38) == 0x17724538
    ensures WordOf(0x50, 0x90, 0, 0) == 0x50900000
  {
  }

  lemma EmptyBits(k: int)
    requires 1 <= k <= 9
    ensures StreamHeader(k) + Trailer(0) == Unpacked(EmptyStream(k))
    ensures |StreamHeader(k)| == 32 && |Trailer(0)| == 80
  {
    hide BitsOf, Pow2, Trailer, StreamHeader;
    Powers();
    HeaderIs(k);
    TrailerIs(0);
    Joined(StreamHeader(k), 32, 0x425a6830 + k, Trailer(0), 80, 0x17724538509000000000);
    EmptyNumber(k);
  }

  lemma NothingBits()
    ensures ItemsBits([]) == [] && CrcValue(Combined(0, [])) == 0 && Content([]) == []
  {
  }

  lemma {:induction false} UnpackedSame(s: seq<Byte>, t: seq<Byte>)
    requires Unpacked(s) == Unpacked(t)
    ensures s == t
  {
    hide BitsOf, Pow2;
    if s != [] {
      var s', t' := s[..|s| - 1], t[..|t| - 1];
      var x, y := BitsOf(8, s[|s| - 1]), BitsOf(8, t[|t| - 1]);
      assert (Unpacked(s') + x)[|Unpacked(s')|..] == x && (Unpacked(t') + y)[|Unpacked(t')|..] == y;
      assert (Unpacked(s') + x)[..|Unpacked(s')|] == Unpacked(s') && (Unpacked(t') + y)[..|Unpacked(t')|] == Unpacked(t');
      UnpackedSame(s', t');
      Pow2Eight();
      ValueOfBits(8, s[|s| - 1]);
      ValueOfBits(8, t[|t| - 1]);
      assert s == s' + [s[|s| - 1]] && t == t' + [t[|t| - 1]];
    }
  }

  /** A stream of no data, of any block size, is these fourteen bytes and no others. */
  lemma EmptyStreams(bytes: seq<Byte>, k: int, items: seq<Item>)
    ensures StreamOfData(bytes, [], k, items) <==> 1 <= k <= 9 && items == [] && bytes == EmptyStream(k)
  {
    hide BitsOf, Is, RunDecode, StreamHeader, Trailer, Good, ItemsBits, Content;
    if StreamOfData(bytes, [], k, items) { NoItems(items, k); }
    if 1 <= k <= 9 && items == [] {
      EmptyBits(k);
      NothingBits();
      var fixed := StreamHeader(k) + Trailer(0);
      assert StreamHeader(k) + ItemsBits([]) + Trailer(0) == fixed;
      if S.StreamOf(Unpacked(bytes), k, []) {
        var pad :| 0 <= pad < 8 && Unpacked(bytes) == StreamHeader(k) + ItemsBits([]) + Trailer(0) + Zeros(pad);
        assert |Unpacked(bytes)| == 112 + pad;
        assert pad == 0;
        assert Unpacked(bytes) == fixed;
        UnpackedSame(bytes, EmptyStream(k));
      }
      assert Unpacked(EmptyStream(k)) == StreamHeader(k) + ItemsBits([]) + Trailer(0) + Zeros(0);
    }
  }

  // ----- a stream of one byte -----

  /** Only the byte a is in use. */
  function OnlyA(): (u: seq<bool>)
    ensures |u| == 256 && forall i :: 0 <= i < 256 ==> (u[i] <==> i == 0x61)
  {
    seq(256, i => i == 0x61)
  }

  /** Three symbols: RUNA and RUNB of two bits, the end mark of one. */
  const LENGTHS: seq<int> := [2, 2, 1]

  function BlockA(): Block {
    Block(0x19939b6b, 0, OnlyA(), 2, [0], [LENGTHS, LENGTHS], [0, 2])
  }

  function StreamA(): seq<Byte> {
    [0x42, 0x5a, 0x68, 0x39, 0x31, 0x41, 0x59, 0x26, 0x53, 0x59, 0x19, 0x93, 0x9b, 0x6b, 0x00, 0x00, 0x00, 0x01, 0x00, 0x20,
     0x00, 0x20, 0x00, 0x21, 0x18, 0x46, 0x82, 0xee, 0x48, 0xa7, 0x0a, 0x12, 0x03, 0x32, 0x73, 0x6d, 0x60]
  }

  /** The block mark: the digits of pi. */
  lemma MagicIs()
    ensures Is(MagicBits(1), 48, 0x314159265359)
  {
    hide BitsOf, Is, MagicBits, Pow2;
    Powers();
    MagicLast();
    MagicNext(6, 0x59, 0, 0);
    MagicNext(5, 0x53, 8, 0x59);
    MagicNext(4, 0x26, 16, 0x5359);
    MagicNext(3, 0x59, 24, 0x265359);
    MagicNext(2, 0x41, 32, 0x59265359);
    MagicNext(1, 0x31, 40, 0x4159265359);
  }

  lemma MagicNext(k: nat, v: nat, n: nat, x: nat)
    requires 1 <= k <= 6 && v == BlockByte(k) && Is(MagicBits(k + 1), n, x)
    ensures Is(MagicBits(k), n + 8, v * Pow2(n) + x)
  {
    hide BitsOf, Is, Pow2;
    Powers();
    Field(8, v);
    Joined(BitsOf(8, v), 8, v, MagicBits(k + 1), n, x);
  }

  lemma MagicLast()
    ensures Is(MagicBits(7), 0, 0)
  {
  }

  lemma Bit(x: bool)
    ensures Is([x], 1, if x then 1 else 0)
  {
  }

  lemma HeaderAIs()
    ensures Is(HeaderBits(0x19939b6b, 0), 105, 0x6282b24ca6b2332736d6000000)
  {
    hide BitsOf, Is, MagicBits;
    Powers();
    MagicIs();
    Field(32, 0x19939b6b);
    Bit(false);
    Field(24, 0);
    var a, b, c, d := MagicBits(1), BitsOf(32, 0x19939b6b), [false], BitsOf(24, 0);
    Joined(a, 48, 0x314159265359, b, 32, 0x19939b6b);
    Joined(a + b, 80, 0x31415926535919939b6b, c, 1, 0);
    Joined(a + b + c, 81, 0x6282b24ca6b2332736d6, d, 24, 0);
  }

  /** One bit among sixteen. */
  lemma OneOf16(b: Bits, i: nat)
    requires |b| == 16 && i < 16 && forall k :: 0 <= k < 16 ==> (b[k] <==> k == i)
    ensures Is(b, 16, Pow2(15 - i))
  {
    hide BitsOf, Is, Pow2;
    Pow2Small();
    ZerosAre(i);
    ZerosAre(15 - i);
    Bit(true);
    Joined(Zeros(i), i, 0, [true], 1, 1);
    Joined(Zeros(i) + [true], i + 1, 1, Zeros(15 - i), 15 - i, 0);
    assert b == Zeros(i) + [true] + Zeros(15 - i);
  }

  lemma ZerosAre(n: nat)
    ensures Is(Zeros(n), n, 0)
  {
    hide BitsOf;
    ZeroBits(n);
  }

  lemma {:induction false} MembersA(i: nat)
    requires i <= 16
    ensures MemberBits(OnlyA(), i) == if i <= 6 then OnlyA()[96..112] else []
    decreases 16 - i
  {
    if i < 16 {
      MembersA(i + 1);
      GroupA(i);
    }
  }

  lemma GroupA(i: nat)
    requires i < 16
    ensures Groups(OnlyA())[i] <==> i == 6
  {
    if i == 6 { assert OnlyA()[96..112][1]; }
  }

  lemma MappingAIs()
    ensures Is(MappingBits(OnlyA()), 32, 0x2004000)
  {
    hide BitsOf, Is, MemberBits;
    var g, m := Groups(OnlyA()), OnlyA()[96..112];
    forall k | 0 <= k < 16 ensures g[k] <==> k == 6 { GroupA(k); }
    MembersA(0);
    OneOf16(g, 6);
    OneOf16(m, 1);
    Powers();
    NineBits();
    Joined(g, 16, 0x200, m, 16, 0x4000);
  }

  lemma NineBits()
    ensures Pow2(9) == 0x200 && Pow2(14) == 0x4000
  {
    hide Pow2;
    Pow2Small();
    Pow2Add(5, 4);
    Pow2Add(9, 5);
  }

  lemma SelectorAIs()
    ensures Is(SelectorBits(2, [0]), 19, 0x20002)
  {
    hide BitsOf, Is;
    Powers();
    Field(3, 2);
    Field(15, 1);
    Bit(false);
    assert Initial(2)[0] == 0;
    assert SelectorMtf([0], Initial(2)) == [0];
    assert UnaryAll([]) == [] && Unary(0) == [false];
    assert UnaryAll([0]) == [false];
    Joined(BitsOf(3, 2), 3, 2, BitsOf(15, 1), 15, 1);
    Joined(BitsOf(3, 2) + BitsOf(15, 1), 18, 0x10001, [false], 1, 0);
  }

  lemma TableAIs()
    ensures Is(TableBits(LENGTHS), 10, 0x46)
  {
    hide BitsOf, Is;
    Powers();
    Field(5, 2);
    assert DeltaBits(2, 2) == [false] && DeltaBits(2, 1) == [true, true] + [false];
    assert LENGTHS[1..] == [2, 1] && [2, 1][1..] == [1] && [1][1..] == [];
    assert LengthBits(2, []) == [] && LengthBits(1, []) == [];
    assert LengthBits(2, [1]) == [true, true, false];
    assert LengthBits(2, [2, 1]) == [false] + [true, true, false];
    assert LengthBits(2, LENGTHS) == [false] + ([false] + [true, true, false]);
    var z, o, a := [false], [true], BitsOf(5, 2);
    Bit(false);
    Bit(true);
    Joined(a, 5, 2, z, 1, 0);
    Joined(a + z, 6, 4, z, 1, 0);
    Joined(a + z + z, 7, 8, o, 1, 1);
    Joined(a + z + z + o, 8, 17, o, 1, 1);
    Joined(a + z + z + o + o, 9, 35, z, 1, 0);
    assert TableBits(LENGTHS) == a + z + z + o + o + z;
  }

  lemma TablesAIs()
    ensures Is(AllTableBits([LENGTHS, LENGTHS]), 20, 0x11846)
  {
    hide BitsOf, Is, TableBits;
    Powers();
    TableAIs();
    var t := TableBits(LENGTHS);
    assert [LENGTHS, LENGTHS][1..] == [LENGTHS] && [LENGTHS][1..] == [];
    assert AllTableBits([]) == [];
    assert AllTableBits([LENGTHS]) == t;
    Joined(t, 10, 0x46, t, 10, 0x46);
  }

  /** RUNA is 10, the end mark 0. */
  lemma CodesA()
    ensures DT.CodeBits(LENGTHS, 0) == BitsOf(2, 2) && DT.CodeBits(LENGTHS, 2) == BitsOf(1, 0)
  {
    hide BitsOf;
    assert LENGTHS[..0] == [] && LENGTHS[..2] == [2, 2] && [2, 2][..1] == [2] && [2][..0] == [];
    assert Count([2, 2], 1) == 0 && Count([2, 2], 0) == 0;
    assert Count(LENGTHS, 0) == 0 && Count(LENGTHS, 1) == 1;
    assert CC.FirstCode(LENGTHS, 1) == 0;
    assert CC.FirstCode(LENGTHS, 2) == 2;
  }

  lemma DataAIs()
    ensures Is(DataBits([0, 2], [0], [LENGTHS, LENGTHS], 0), 3, 4)
  {
    hide BitsOf, Is;
    CodesA();
    Pow2Small();
    assert Pow2(2) == 4;
    Field(2, 2);
    Field(1, 0);
    var ls := [LENGTHS, LENGTHS];
    assert DataBits([0, 2], [0], ls, 2) == [];
    assert DataBits([0, 2], [0], ls, 1) == BitsOf(1, 0);
    assert DataBits([0, 2], [0], ls, 0) == BitsOf(2, 2) + BitsOf(1, 0);
    Joined(BitsOf(2, 2), 2, 2, BitsOf(1, 0), 1, 0);
  }

  lemma BlockAIs()
    ensures Is(BlockBits(BlockA()), 179, 0x18a0ac9329ac8cc9cdb5800000008010001000108c234)
  {
    hide BitsOf, Is, HeaderBits, MappingBits, SelectorBits, AllTableBits, DataBits;
    HeaderAIs();
    MappingAIs();
    SelectorAIs();
    TablesAIs();
    DataAIs();
    Powers();
    MorePowers();
    var ls := [LENGTHS, LENGTHS];
    var h, m, s, t, d := HeaderBits(0x19939b6b, 0), MappingBits(OnlyA()), SelectorBits(2, [0]), AllTableBits(ls), DataBits([0, 2], [0], ls, 0);
    Joined(h, 105, 0x6282b24ca6b2332736d6000000, m, 32, 0x2004000);
    Joined(h + m, 137, 0x6282b24ca6b2332736d600000002004000, s, 19, 0x20002);
    Joined(h + m + s, 156, 0x31415926535919939b6b0000000100200020002, t, 20, 0x11846);
    Joined(h + m + s + t, 176, 0x31415926535919939b6b000000010020002000211846, d, 3, 4);
  }

  lemma MorePowers()
    ensures Pow2(19) == 0x8_0000 && Pow2(20) == 0x10_0000 && Pow2(179) == 0x800000000000000000000000000000000000000000000
  {
    hide Pow2;
    Powers();
    Pow2Add(16, 3);
    Pow2Add(16, 4);
    Pow2Add(80, 80);
    Pow2Add(160, 19);
  }

  /** The thirty-seven bytes as words. */
  lemma StreamANumber()
    ensures Is(Unpacked(StreamA()), 296, 0x425a683931415926535919939b6b00000001002000200021184682ee48a70a120332736d60)
  {
    hide BitsOf, Is, Unpacked, WordOf, HeadA;
    WordsA();
    HeadANumber();
    var w4 := HeadA();
    NextWord(w4, 160, 0x425a683931415926535919939b6b000000010020, 0x00, 0x20, 0x00, 0x21);
    var w5 := w4 + [0x00, 0x20, 0x00, 0x21];
    NextWord(w5, 192, 0x425a683931415926535919939b6b00000001002000200021, 0x18, 0x46, 0x82, 0xee);
    var w6 := w5 + [0x18, 0x46, 0x82, 0xee];
    NextWord(w6, 224, 0x425a683931415926535919939b6b00000001002000200021184682ee, 0x48, 0xa7, 0x0a, 0x12);
    var w7 := w6 + [0x48, 0xa7, 0x0a, 0x12];
    NextWord(w7, 256, 0x425a683931415926535919939b6b00000001002000200021184682ee48a70a12, 0x03, 0x32, 0x73, 0x6d);
    var w8 := w7 + [0x03, 0x32, 0x73, 0x6d];
    NextByte(w8, 288, 0x425a683931415926535919939b6b00000001002000200021184682ee48a70a120332736d, 0x60);
    HeadTail();
  }

  lemma HeadTail()
    ensures HeadA() + [0x00, 0x20, 0x00, 0x21] + [0x18, 0x46, 0x82, 0xee] + [0x48, 0xa7, 0x0a, 0x12] + [0x03, 0x32, 0x73, 0x6d] + [0x60] == StreamA()
  {
  }

  function HeadA(): seq<Byte> {
    [0x42, 0x5a, 0x68, 0x39, 0x31, 0x41, 0x59, 0x26, 0x53, 0x59, 0x19, 0x93, 0x9b, 0x6b, 0x00, 0x00, 0x00, 0x01, 0x00, 0x20]
  }

  lemma HeadANumber()
    ensures Is(Unpacked(HeadA()), 160, 0x425a683931415926535919939b6b000000010020)
  {
    hide BitsOf, Is, Unpacked, WordOf;
    WordsA();
    var w0: seq<Byte> := [0x42, 0x5a, 0x68, 0x39];
    WordIs(0x42, 0x5a, 0x68, 0x39);
    NextWord(w0, 32, 0x425a6839, 0x31, 0x41, 0x59, 0x26);
    var w1 := w0 + [0x31, 0x41, 0x59, 0x26];
    NextWord(w1, 64, 0x425a683931415926, 0x53, 0x59, 0x19, 0x93);
    var w2 := w1 + [0x53, 0x59, 0x19, 0x93];
    NextWord(w2, 96, 0x425a68393141592653591993, 0x9b, 0x6b, 0x00, 0x00);
    var w3 := w2 + [0x9b, 0x6b, 0x00, 0x00];
    NextWord(w3, 128, 0x425a683931415926535919939b6b0000, 0x00, 0x01, 0x00, 0x20);
    var w4 := w3 + [0x00, 0x01, 0x00, 0x20];
    assert w4 == HeadA();
  }

  lemma WordsA()
    ensures WordOf(0x42, 0x5a, 0x68, 0x39) == 0x425a6839 && WordOf(0x31, 0x41, 0x59, 0x26) == 0x31415926
    ensures WordOf(0x53, 0x59, 0x19, 0x93) == 0x53591993 && WordOf(0x9b, 0x6b, 0x00, 0x00) == 0x9b6b0000
    ensures WordOf(0x00, 0x01, 0x00, 0x20) == 0x00010020 && WordOf(0x00, 0x20, 0x00, 0x21) == 0x00200021
    ensures WordOf(0x18, 0x46, 0x82, 0xee) == 0x184682ee && WordOf(0x48, 0xa7, 0x0a, 0x12) == 0x48a70a12
    ensures WordOf(0x03, 0x32, 0x73, 0x6d) == 0x0332736d
  {
  }

  lemma StreamAIs()
    ensures StreamHeader(9) + BlockBits(BlockA()) + Trailer(0x19939b6b) + Zeros(5) == Unpacked(StreamA())
  {
    hide BitsOf, Is, StreamHeader, BlockBits, Trailer, BlockA, StreamA, Pow2;
    Powers();
    MorePowers();
    SizeA();
    HeaderIs(9);
    BlockAIs();
    TrailerIs(0x19939b6b);
    ZerosAre(5);
    var h, b, t := StreamHeader(9), BlockBits(BlockA()), Trailer(0x19939b6b);
    Joined(h, 32, 0x425a6839, b, 179, 0x18a0ac9329ac8cc9cdb5800000008010001000108c234);
    Joined(h + b, 211, 0x212d341c98a0ac9329ac8cc9cdb5800000008010001000108c234, t, 80, 0x17724538509019939b6b);
    Joined(h + b + t, 291, 0x212d341c98a0ac9329ac8cc9cdb5800000008010001000108c23417724538509019939b6b, Zeros(5), 5, 0);
    StreamANumber();
    SameNumber(h + b + t + Zeros(5), Unpacked(StreamA()), 296, 0x425a683931415926535919939b6b00000001002000200021184682ee48a70a120332736d60);
  }

  lemma {:induction false} UsedA(n: nat)
    requires n <= 256
    ensures ME.Used(OnlyA()[..n]) == if n <= 0x61 then [] else [0x61]
  {
    if n > 0 {
      UsedA(n - 1);
      assert OnlyA()[..n][..n - 1] == OnlyA()[..n - 1];
    }
  }

  lemma SymbolsA()
    ensures Codes([0], 1) && Symbols([0], 1) == [0, 2]
  {
    assert [0][..0] == [];
    assert EncodeAll([], 1) == Encoder([], 0, Initial(1));
    assert EncodeAll([0], 1) == Encoder([], 1, Initial(1));
    assert ZeroRun(1) == [RUNA] + ZeroRun(0);
  }

  lemma KraftA()
    ensures Decodable(LENGTHS, 3)
  {
    assert LENGTHS[..2] == [2, 2] && [2, 2][..1] == [2] && [2][..0] == [];
    assert HuffmanTree.Kraft([], CC.LONGEST) == 0;
    assert HuffmanTree.Kraft([2], CC.LONGEST) == Pow2(18);
    assert HuffmanTree.Kraft([2, 2], CC.LONGEST) == 2 * Pow2(18) == Pow2(19);
    assert HuffmanTree.Kraft(LENGTHS, CC.LONGEST) == 2 * Pow2(19) == Pow2(20);
  }

  lemma DataA()
    ensures RunDecode([0x61]) == [0x61] && Complete([0x61])
  {
    assert [0x61][..0] == [];
    assert ReadAll([]) == Reading([], 256, 0);
  }

  lemma CrcA()
    ensures FinalCrc(CrcOf([0x61])) == 0x19939b6b && CrcValue(0x19939b6b) == 0x19939b6b
    ensures CombineCrc(0, 0x19939b6b) == 0x19939b6b
  {
    hide UpdateWord;
    assert [0x61][..0] == [];
    assert CrcFrom(0xffffffff, []) == 0xffffffff;
    UpdateA();
  }

  lemma UpdateA()
    ensures UpdateWord(0xffffffff, 0x61) == 0xe66c6494
  {
  }

  lemma SendsA()
    ensures Good(Item(BlockA(), [0x61], [0]), 9)
  {
    hide Pow2, CrcOf, FinalCrc, BitsOf, Symbols, Decodable, RunDecode, Complete, CrcValue, ME.Used;
    Powers();
    var u := OnlyA();
    assert u[..256] == u;
    UsedA(256);
    UsedA(0x61);
    SymbolsA();
    KraftA();
    DataA();
    CrcA();
    CmpSelf([0x61], 0, 1);
    assert LastColumn([0x61], [0]) == [0x61];
    assert ME.CodesOf(u, [0x61]) == [0];
  }

  /** A stream of the one byte a, as it stands in a file. */
  lemma OneByteStream()
    ensures StreamOfData(StreamA(), [0x61], 9, [Item(BlockA(), [0x61], [0])])
  {
    hide Good, StreamHeader, BlockBits, Trailer, BlockA, StreamA, CombineCrc, RunDecode, CrcValue, FinalCrc, CrcOf;
    SendsA();
    CrcA();
    DataA();
    StreamAIs();
    var i := Item(BlockA(), [0x61], [0]);
    assert [i][1..] == [];
    SizeA();
    assert ItemsBits([i]) == BlockBits(BlockA()) + ItemsBits([]);
    assert Combined(0, [i]) == Combined(0x19939b6b, []);
    assert Content([i]) == [0x61] + Content([]);
  }

  lemma SizeA()
    ensures |BlockA().inUse| == 256
  {
  }
}
