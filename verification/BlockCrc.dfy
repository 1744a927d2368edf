/**
  What the CRC of a block is (dep/bzip2/bzlib_private.h, lines 157-172): the CRC of section 8 of
  RFC 1952 with every byte and the result read from the other end, so that it rests on the same
  polynomial; and what it detects. The combined CRC of a stream (dep/bzip2/compress.c, line 607)
  depends on every block and on their order.
*/
module BlockCrc {
  import opened ByteWords
  import opened Common
  import opened RunLength
  import opened C = Crc

  // ----- read from the other end -----

  /** The bits of a word in opposite order. */
  function Mirror(x: bv32): bv32 {
    ((x & 0x00000001) << 31) | ((x & 0x00000002) << 29) | ((x & 0x00000004) << 27) | ((x & 0x00000008) << 25)
    | ((x & 0x00000010) << 23) | ((x & 0x00000020) << 21) | ((x & 0x00000040) << 19) | ((x & 0x00000080) << 17)
    | ((x & 0x00000100) << 15) | ((x & 0x00000200) << 13) | ((x & 0x00000400) << 11) | ((x & 0x00000800) << 9)
    | ((x & 0x00001000) << 7) | ((x & 0x00002000) << 5) | ((x & 0x00004000) << 3) | ((x & 0x00008000) << 1)
    | ((x & 0x00010000) >> 1) | ((x & 0x00020000) >> 3) | ((x & 0x00040000) >> 5) | ((x & 0x00080000) >> 7)
    | ((x & 0x00100000) >> 9) | ((x & 0x00200000) >> 11) | ((x & 0x00400000) >> 13) | ((x & 0x00800000) >> 15)
    | ((x & 0x01000000) >> 17) | ((x & 0x02000000) >> 19) | ((x & 0x04000000) >> 21) | ((x & 0x08000000) >> 23)
    | ((x & 0x10000000) >> 25) | ((x & 0x20000000) >> 27) | ((x & 0x40000000) >> 29) | ((x & 0x80000000) >> 31)
  }

  function ToTop(c: bv32): bv32 {
    c << 24
  }

  /** The bits of a byte in opposite order. */
  function MirrorByte(b: bv8): bv8 {
    ((b & 1) << 7) | ((b & 2) << 5) | ((b & 4) << 3) | ((b & 8) << 1)
    | ((b >> 1) & 8) | ((b >> 3) & 4) | ((b >> 5) & 2) | ((b >> 7) & 1)
  }

  function MirrorBytes(s: seq<Byte>): seq<bv8> {
    if s == [] then [] else MirrorBytes(s[..|s| - 1]) + [MirrorByte(s[|s| - 1] as bv8)]
  }

  lemma MirrorXor(a: bv32, b: bv32)
    ensures Mirror(Xor(a, b)) == Xor(Mirror(a), Mirror(b))
  {
  }

  /** What one bit of the block's register brings in. */
  function High(x: bv32): bv32 {
    if x & 0x80000000 != 0 then CRC_POLY else 0
  }

  function Twice(x: bv32): bv32 {
    x << 1
  }

  lemma CrcBitIs(x: bv32)
    ensures CrcBit(x) == Xor(Twice(x), High(x))
  {
    hide Xor;
    XorIs(Twice(x), CRC_POLY);
    XorZero(Twice(x));
  }

  lemma TwiceLow(x: bv32)
    ensures Mirror(Twice(x)) & 0xff == Half(Mirror(x)) & 0xff
    ensures Mirror(Twice(x)) & 0xff00 == Half(Mirror(x)) & 0xff00
  {
  }

  lemma TwiceHigh(x: bv32)
    ensures Mirror(Twice(x)) & 0xff0000 == Half(Mirror(x)) & 0xff0000
    ensures Mirror(Twice(x)) & 0xff000000 == Half(Mirror(x)) & 0xff000000
  {
  }

  lemma ByBytes(a: bv32, b: bv32)
    requires a & 0xff == b & 0xff && a & 0xff00 == b & 0xff00 && a & 0xff0000 == b & 0xff0000 && a & 0xff000000 == b & 0xff000000
    ensures a == b
  {
  }

  /** A shift one way is a shift the other way. */
  lemma MirrorTwice(x: bv32)
    ensures Mirror(Twice(x)) == Half(Mirror(x))
  {
    hide Mirror, Twice, Half;
    TwiceLow(x);
    TwiceHigh(x);
    ByBytes(Mirror(Twice(x)), Half(Mirror(x)));
  }

  lemma MirrorEnd(x: bv32)
    ensures x & 0x80000000 != 0 <==> Mirror(x) & 1 == 1
  {
  }

  lemma MirrorPoly()
    ensures Mirror(CRC_POLY) == POLY && Mirror(0) == 0
  {
  }

  lemma MirrorHigh(x: bv32)
    ensures Mirror(High(x)) == Low(Mirror(x))
  {
    hide Mirror;
    MirrorEnd(x);
    MirrorPoly();
  }

  /** One bit of either register. */
  lemma MirrorBit(x: bv32)
    ensures Mirror(CrcBit(x)) == Bit(Mirror(x))
  {
    hide Mirror, CrcBit, Xor, Twice, High, Half, Low;
    CrcBitIs(x);
    MirrorXor(Twice(x), High(x));
    MirrorTwice(x);
    MirrorHigh(x);
  }

  lemma MirrorTop(b: bv8)
    ensures Mirror(ToTop(b as bv32)) == MirrorByte(b) as bv32
  {
  }

  // ----- a byte is eight bits -----

  lemma TwiceXor(a: bv32, b: bv32)
    ensures Twice(Xor(a, b)) == Xor(Twice(a), Twice(b))
  {
  }

  lemma HighXor(a: bv32, b: bv32)
    ensures High(Xor(a, b)) == Xor(High(a), High(b))
  {
  }

  function EightBits(x: bv32): bv32 {
    CrcBit(CrcBit(CrcBit(CrcBit(CrcBit(CrcBit(CrcBit(CrcBit(x))))))))
  }

  lemma BitXor(a: bv32, b: bv32)
    ensures CrcBit(Xor(a, b)) == Xor(CrcBit(a), CrcBit(b))
  {
    hide CrcBit, Xor, Twice, High;
    CrcBitIs(a);
    CrcBitIs(b);
    CrcBitIs(Xor(a, b));
    TwiceXor(a, b);
    HighXor(a, b);
    XorSwap(Twice(a), Twice(b), High(a), High(b));
  }

  lemma EightXor(a: bv32, b: bv32)
    ensures EightBits(Xor(a, b)) == Xor(EightBits(a), EightBits(b))
  {
    hide CrcBit, Xor;
    var a1, b1 := CrcBit(a), CrcBit(b);
    var a2, b2 := CrcBit(a1), CrcBit(b1);
    var a3, b3 := CrcBit(a2), CrcBit(b2);
    var a4, b4 := CrcBit(a3), CrcBit(b3);
    var a5, b5 := CrcBit(a4), CrcBit(b4);
    var a6, b6 := CrcBit(a5), CrcBit(b5);
    var a7, b7 := CrcBit(a6), CrcBit(b6);
    BitXor(a, b);
    BitXor(a1, b1);
    BitXor(a2, b2);
    BitXor(a3, b3);
    BitXor(a4, b4);
    BitXor(a5, b5);
    BitXor(a6, b6);
    BitXor(a7, b7);
  }

  lemma BitLow(x: bv32)
    requires x <= 0x7fffffff
    ensures CrcBit(x) == Twice(x)
  {
  }

  lemma TwiceBelow(x: bv32)
    ensures x <= 0xffffff ==> Twice(x) <= 0x1ffffff
    ensures x <= 0x1ffffff ==> Twice(x) <= 0x3ffffff
    ensures x <= 0x3ffffff ==> Twice(x) <= 0x7ffffff
    ensures x <= 0x7ffffff ==> Twice(x) <= 0xfffffff
    ensures x <= 0xfffffff ==> Twice(x) <= 0x1fffffff
    ensures x <= 0x1fffffff ==> Twice(x) <= 0x3fffffff
    ensures x <= 0x3fffffff ==> Twice(x) <= 0x7fffffff
  {
  }

  function Left8(x: bv32): bv32 {
    x << 8
  }

  function Low24(x: bv32): bv32 {
    x & 0xffffff
  }

  function Top8(x: bv32): bv32 {
    x >> 24
  }

  lemma TwiceEight(x: bv32)
    ensures Twice(Twice(Twice(Twice(Twice(Twice(Twice(Twice(x)))))))) == Left8(x)
  {
  }

  /** Without high bits the register is only shifted. */
  lemma EightLow(x: bv32)
    requires x <= 0xffffff
    ensures EightBits(x) == Left8(x)
  {
    hide CrcBit, Twice, Left8;
    TwiceEight(x);
    var x1 := Twice(x);
    var x2 := Twice(x1);
    var x3 := Twice(x2);
    var x4 := Twice(x3);
    var x5 := Twice(x4);
    var x6 := Twice(x5);
    var x7 := Twice(x6);
    TwiceBelow(x);
    TwiceBelow(x1);
    TwiceBelow(x2);
    TwiceBelow(x3);
    TwiceBelow(x4);
    TwiceBelow(x5);
    TwiceBelow(x6);
    BitLow(x);
    BitLow(x1);
    BitLow(x2);
    BitLow(x3);
    BitLow(x4);
    BitLow(x5);
    BitLow(x6);
    BitLow(x7);
  }

  lemma HighAndLow(crc: bv32, c: bv32)
    requires c <= 0xff
    ensures Xor(crc, ToTop(c)) == Xor(ToTop(Xor(Top8(crc), c)), Low24(crc))
    ensures Left8(Low24(crc)) == Left8(crc) && Low24(crc) <= 0xffffff
  {
  }

  lemma UpdateShape(crc: Crc, b: bv32)
    ensures UpdateWord(crc, b) == Xor(Left8(crc), CrcTable(Xor(Top8(crc), b)))
  {
    hide CrcTable, TableIndex;
    IndexIs(crc, b);
  }

  lemma IndexIs(crc: Crc, b: bv32)
    ensures TableIndex(crc, b) == Xor(Top8(crc), b)
  {
  }

  lemma TableIs(i: bv32)
    ensures CrcTable(i) == EightBits(ToTop(i))
  {
    hide CrcBit;
  }

  /** The table step is eight bit steps with the byte in the high end. */
  lemma UpdateIsBits(crc: Crc, b: bv32)
    requires b <= 0xff
    ensures UpdateWord(crc, b) == EightBits(Xor(crc, ToTop(b)))
  {
    hide UpdateWord, CrcTable, EightBits, Xor, ToTop, Left8, Low24, Top8;
    UpdateShape(crc, b);
    var i := Xor(Top8(crc), b);
    HighAndLow(crc, b);
    EightXor(ToTop(i), Low24(crc));
    EightLow(Low24(crc));
    TableIs(i);
    XorComm(Left8(crc), CrcTable(i));
  }

  lemma EightZeros(x: bv32)
    ensures Zeros(x, 8) == Bit(Bit(Bit(Bit(Bit(Bit(Bit(Bit(x))))))))
  {
    hide Bit;
    assert Zeros(Bit(Bit(Bit(Bit(x)))), 4) == Bit(Bit(Bit(Bit(Bit(Bit(Bit(Bit(x))))))));
  }

  lemma MirrorEight(x: bv32)
    ensures Mirror(EightBits(x)) == Zeros(Mirror(x), 8)
  {
    hide CrcBit, Bit, Mirror, Zeros;
    EightZeros(Mirror(x));
    var x1 := CrcBit(x);
    var x2 := CrcBit(x1);
    var x3 := CrcBit(x2);
    var x4 := CrcBit(x3);
    var x5 := CrcBit(x4);
    var x6 := CrcBit(x5);
    var x7 := CrcBit(x6);
    MirrorBit(x);
    MirrorBit(x1);
    MirrorBit(x2);
    MirrorBit(x3);
    MirrorBit(x4);
    MirrorBit(x5);
    MirrorBit(x6);
    MirrorBit(x7);
  }

  lemma FeedIs(r: bv32, b: bv8)
    ensures Feed(r, b) == Zeros(Xor(r, b as bv32), 8)
  {
    hide Xor, Zeros;
  }

  lemma ByteFits(b: bv8)
    ensures b as bv32 <= 0xff
  {
  }

  lemma MirrorWord(crc: Crc, b: bv8)
    ensures Mirror(UpdateWord(crc, b as bv32)) == Feed(Mirror(crc), MirrorByte(b))
  {
    hide EightBits, Mirror, MirrorByte, Zeros, UpdateWord, Xor, ToTop, Feed;
    ByteFits(b);
    FeedIs(Mirror(crc), MirrorByte(b));
    UpdateIsBits(crc, b as bv32);
    MirrorEight(Xor(crc, ToTop(b as bv32)));
    MirrorXor(crc, ToTop(b as bv32));
    MirrorTop(b);
  }

  /** A byte of either. */
  lemma MirrorUpdate(crc: Crc, c: Byte)
    ensures Mirror(UpdateCrc(crc, c)) == Feed(Mirror(crc), MirrorByte(c as bv8))
  {
    hide Mirror, MirrorByte, UpdateWord, Feed;
    Small(c);
    MirrorWord(crc, c as bv8);
  }

  lemma {:induction false} MirrorRegister(crc: Crc, s: seq<Byte>)
    ensures Mirror(CrcFrom(crc, s)) == Register(Mirror(crc), MirrorBytes(s))
  {
    hide Mirror, MirrorByte, UpdateCrc, Feed;
    if s != [] {
      var t := s[..|s| - 1];
      MirrorRegister(crc, t);
      MirrorUpdate(CrcFrom(crc, t), s[|s| - 1]);
      var m := MirrorBytes(s);
      assert m[..|m| - 1] == MirrorBytes(t);
    }
  }

  lemma AllOnes()
    ensures Mirror(0xffffffff) == 0xffffffff && Not(0) == 0xffffffff
  {
  }

  lemma FinalIs(x: bv32)
    ensures FinalCrc(x) == Xor(x, 0xffffffff)
  {
  }

  lemma NotIs(x: bv32)
    ensures Not(x) == Xor(x, 0xffffffff)
  {
    hide Xor;
  }

  /** The CRC of a block, mirrored, is the CRC of section 8 of RFC 1952 of its mirrored bytes. */
  lemma BlockCrcIs(s: seq<Byte>)
    ensures Mirror(FinalCrc(CrcOf(s))) == Crc32(0, MirrorBytes(s))
  {
    hide Mirror, CrcFrom, Register, Not, FinalCrc, Xor;
    MirrorRegister(0xffffffff, s);
    AllOnes();
    FinalIs(CrcOf(s));
    MirrorXor(CrcOf(s), 0xffffffff);
    NotIs(Register(0xffffffff, MirrorBytes(s)));
  }

  // ----- what it detects -----

  lemma BitOfNone(x: bv32)
    requires CrcBit(x) == 0
    ensures x == 0
  {
  }

  lemma XorNone(a: bv32, b: bv32)
    ensures Xor(a, b) == 0 <==> a == b
  {
  }

  lemma BitInjective(a: bv32, b: bv32)
    requires CrcBit(a) == CrcBit(b)
    ensures a == b
  {
    hide CrcBit, Xor;
    BitXor(a, b);
    XorNone(CrcBit(a), CrcBit(b));
    BitOfNone(Xor(a, b));
    XorNone(a, b);
  }

  lemma EightInjective(a: bv32, b: bv32)
    requires EightBits(a) == EightBits(b)
    ensures a == b
  {
    hide CrcBit;
    var a1, b1 := CrcBit(a), CrcBit(b);
    var a2, b2 := CrcBit(a1), CrcBit(b1);
    var a3, b3 := CrcBit(a2), CrcBit(b2);
    var a4, b4 := CrcBit(a3), CrcBit(b3);
    var a5, b5 := CrcBit(a4), CrcBit(b4);
    var a6, b6 := CrcBit(a5), CrcBit(b5);
    var a7, b7 := CrcBit(a6), CrcBit(b6);
    BitInjective(a7, b7);
    BitInjective(a6, b6);
    BitInjective(a5, b5);
    BitInjective(a4, b4);
    BitInjective(a3, b3);
    BitInjective(a2, b2);
    BitInjective(a1, b1);
    BitInjective(a, b);
  }

  lemma Cancel(a: bv32, b: bv32, x: bv32)
    requires Xor(a, x) == Xor(b, x)
    ensures a == b
  {
  }

  lemma CancelByte(a: bv32, x: bv32, y: bv32)
    requires Xor(a, ToTop(x)) == Xor(a, ToTop(y)) && x <= 0xff && y <= 0xff
    ensures x == y
  {
  }

  lemma WordInjective(a: Crc, b: Crc, x: bv32, y: bv32)
    requires x <= 0xff && y <= 0xff && UpdateWord(a, x) == UpdateWord(b, y)
    ensures x == y ==> a == b
    ensures a == b ==> x == y
  {
    hide UpdateWord, EightBits, Xor, ToTop;
    UpdateIsBits(a, x);
    UpdateIsBits(b, y);
    EightInjective(Xor(a, ToTop(x)), Xor(b, ToTop(y)));
    if x == y { Cancel(a, b, ToTop(x)); }
    if a == b { CancelByte(a, x, y); }
  }

  /** Different registers stay different through any byte, and different bytes make different registers. */
  lemma UpdateInjective(a: Crc, b: Crc, c: Byte, d: Byte)
    requires UpdateCrc(a, c) == UpdateCrc(b, d)
    ensures c == d ==> a == b
    ensures a == b ==> c == d
  {
    hide UpdateWord;
    Small(c);
    Small(d);
    WordInjective(a, b, c as bv32, d as bv32);
    if a == b { SameByte(c, d); }
  }

  lemma {:induction false} StaysDifferent(a: Crc, b: Crc, s: seq<Byte>)
    requires a != b
    ensures CrcFrom(a, s) != CrcFrom(b, s)
  {
    hide UpdateCrc;
    if s != [] {
      var t, c := s[..|s| - 1], s[|s| - 1];
      StaysDifferent(a, b, t);
      if UpdateCrc(CrcFrom(a, t), c) == UpdateCrc(CrcFrom(b, t), c) {
        UpdateInjective(CrcFrom(a, t), CrcFrom(b, t), c, c);
      }
    }
  }

  lemma FinalInjective(a: Crc, b: Crc)
    requires FinalCrc(a) == FinalCrc(b)
    ensures a == b
  {
  }

  /** One changed byte always changes the CRC of the block. */
  lemma OneByteDetected(s: seq<Byte>, i: nat, c: Byte)
    requires i < |s| && s[i] != c
    ensures FinalCrc(CrcOf(s)) != FinalCrc(CrcOf(s[i := c]))
  {
    hide UpdateCrc, CrcFrom, FinalCrc;
    var a, t := s[..i], s[i + 1..];
    assert s == (a + [s[i]]) + t && s[i := c] == (a + [c]) + t;
    RunLength.CrcConcat(0xffffffff, a + [s[i]], t);
    RunLength.CrcConcat(0xffffffff, a + [c], t);
    CrcAppend(0xffffffff, a, s[i]);
    CrcAppend(0xffffffff, a, c);
    var r := CrcFrom(0xffffffff, a);
    if UpdateCrc(r, s[i]) == UpdateCrc(r, c) { UpdateInjective(r, r, s[i], c); }
    StaysDifferent(UpdateCrc(r, s[i]), UpdateCrc(r, c), t);
    if FinalCrc(CrcOf(s)) == FinalCrc(CrcOf(s[i := c])) { FinalInjective(CrcOf(s), CrcOf(s[i := c])); }
  }

  lemma CrcAppend(crc: Crc, a: seq<Byte>, c: Byte)
    ensures CrcFrom(crc, a + [c]) == UpdateCrc(CrcFrom(crc, a), c)
  {
    hide UpdateCrc;
    assert (a + [c])[..|a|] == a;
  }

  // ----- the combined CRC -----

  function Rotate(x: bv32): bv32 {
    (x << 1) | (x >> 31)
  }

  lemma CombineIs(crc: Crc, x: Crc)
    ensures CombineCrc(crc, x) == Xor(Rotate(crc), x)
  {
  }

  lemma RotateXor(a: bv32, b: bv32)
    ensures Rotate(Xor(a, b)) == Xor(Rotate(a), Rotate(b))
  {
  }

  lemma RotateNone(x: bv32)
    ensures Rotate(x) == 0 ==> x == 0
  {
  }

  /** Only a word of equal bits is unchanged by the rotation. */
  lemma RotateFixed(x: bv32)
    ensures Rotate(x) == x <==> x == 0 || x == 0xffffffff
  {
  }

  /** Every block counts, and so does all that came before it. */
  lemma CombineInjective(a: Crc, b: Crc, x: Crc, y: Crc)
    requires CombineCrc(a, x) == CombineCrc(b, y)
    ensures x == y ==> a == b
    ensures a == b ==> x == y
  {
    hide Xor, Rotate, CombineCrc;
    CombineIs(a, x);
    CombineIs(b, y);
    if x == y {
      Cancel(Rotate(a), Rotate(b), x);
      RotateXor(a, b);
      XorNone(Rotate(a), Rotate(b));
      RotateNone(Xor(a, b));
      XorNone(a, b);
    }
    if a == b {
      XorComm(Rotate(a), x);
      XorComm(Rotate(a), y);
      Cancel(x, y, Rotate(a));
    }
  }

  lemma Crossed(r: bv32, p: bv32, q: bv32, x: bv32, y: bv32)
    ensures Xor(Xor(r, p), y) == Xor(Xor(r, q), x) <==> Xor(p, q) == Xor(x, y)
  {
    hide Xor;
    XorNone(Xor(Xor(r, p), y), Xor(Xor(r, q), x));
    XorSwap(Xor(r, p), y, Xor(r, q), x);
    XorSwap(r, p, r, q);
    XorNone(r, r);
    XorZero(Xor(p, q));
    XorComm(x, y);
    XorNone(Xor(p, q), Xor(x, y));
  }

  lemma OppositeIs(x: bv32, y: bv32)
    ensures Xor(x, y) == 0xffffffff <==> x == Xor(y, 0xffffffff)
  {
    hide Xor;
    XorNone(Xor(x, y), 0xffffffff);
    XorAssoc(x, y, 0xffffffff);
    XorNone(x, Xor(y, 0xffffffff));
  }

  /** The order of two blocks shows in the combined CRC, unless their CRCs are equal or complements. */
  lemma OrderCounts(crc: Crc, x: Crc, y: Crc)
    ensures CombineCrc(CombineCrc(crc, x), y) == CombineCrc(CombineCrc(crc, y), x) <==> x == y || x == FinalCrc(y)
  {
    hide Xor, Rotate, CombineCrc, FinalCrc;
    CombineIs(crc, x);
    CombineIs(crc, y);
    CombineIs(CombineCrc(crc, x), y);
    CombineIs(CombineCrc(crc, y), x);
    RotateXor(Rotate(crc), x);
    RotateXor(Rotate(crc), y);
    Crossed(Rotate(Rotate(crc)), Rotate(x), Rotate(y), x, y);
    RotateXor(x, y);
    RotateFixed(Xor(x, y));
    XorNone(x, y);
    OppositeIs(x, y);
    FinalIs(y);
  }

  /** As a number: twice the CRC, with the bit that leaves the word put back at the low end. */
  lemma CombineValue(crc: Crc)
    ensures crc < 0x8000_0000 ==> CombineCrc(crc, 0) == crc + crc
    ensures crc >= 0x8000_0000 ==> CombineCrc(crc, 0) == crc + crc + 1
    ensures forall x: Crc :: CombineCrc(crc, x) == CombineCrc(crc, 0) ^ x
  {
  }
}

/** A byte as a number and as a word. */
module ByteWords {
  lemma Small(c: int)
    requires 0 <= c < 256
    ensures c as bv32 <= 0xff && (c as bv8) as bv32 == c as bv32
  {
  }

  lemma Next(x: bv8)
    requires x as int < 255
    ensures (x + 1) as int == x as int + 1
  {
  }

  lemma Back(x: bv8)
    ensures (x as int) as bv8 == x
  {
  }

  lemma {:induction false} WordOf(c: nat) returns (x: bv8)
    requires c < 256
    ensures x as int == c
  {
    if c == 0 { x := 0; } else {
      var y := WordOf(c - 1);
      Next(y);
      x := y + 1;
    }
  }

  lemma ByteBack(c: int)
    requires 0 <= c < 256
    ensures (c as bv8) as int == c
  {
    var x := WordOf(c);
    Back(x);
  }

  lemma SameLow(x: bv8, y: bv8)
    requires x as bv32 == y as bv32
    ensures x == y
  {
  }

  lemma SameByte(c: int, d: int)
    requires 0 <= c < 256 && 0 <= d < 256 && c as bv32 == d as bv32
    ensures c == d
  {
    Small(c);
    Small(d);
    SameLow(c as bv8, d as bv8);
    ByteBack(c);
    ByteBack(d);
  }
}
