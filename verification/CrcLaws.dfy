/**
  What the CRC of section 8 of RFC 1952 comes to: known values, and the residue that shows a
  receiver that data and checksum belong together (dep/zlib/crc32.c, lines 221-253).
*/
module CrcLaws {
  import opened Crc
  import opened Words = Crc32

  // ----- running the register -----

  /** Eight zero bits, one by one. */
  lemma EightZeros(c0: bv32, c1: bv32, c2: bv32, c3: bv32, c4: bv32, c5: bv32, c6: bv32, c7: bv32, c8: bv32)
    requires Bit(c0) == c1 && Bit(c1) == c2 && Bit(c2) == c3 && Bit(c3) == c4
    requires Bit(c4) == c5 && Bit(c5) == c6 && Bit(c6) == c7 && Bit(c7) == c8
    ensures Zeros(c0, 8) == c8
  {
    hide Bit;
    assert Zeros(c8, 0) == c8;
    assert Zeros(c4, 4) == Zeros(c5, 3) == Zeros(c6, 2) == Zeros(c7, 1) == c8;
    assert Zeros(c0, 8) == Zeros(c1, 7) == Zeros(c2, 6) == Zeros(c3, 5) == Zeros(c4, 4);
  }

  lemma Ones1()
    ensures Zeros(0xffffffff, 8) == 0x2dfd1072
  {
    EightZeros(0xffffffff, 0x92477cdf, 0xa49b3d4f, 0xbff51d87, 0xb2420de3, 0xb49985d1, 0xb7f441c8, 0x5bfa20e4, 0x2dfd1072);
  }

  lemma Ones2()
    ensures Zeros(0x2dfd1072, 8) == 0xbe26ed00
  {
    EightZeros(0x2dfd1072, 0x16fe8839, 0xe6c7c73c, 0x7363e39e, 0x39b1f1cf, 0xf1607bc7, 0x9508bec3, 0xa73cdc41, 0xbe26ed00);
  }

  lemma Ones3()
    ensures Zeros(0xbe26ed00, 8) == 0x00be26ed
  {
    EightZeros(0xbe26ed00, 0x5f137680, 0x2f89bb40, 0x17c4dda0, 0x0be26ed0, 0x05f13768, 0x02f89bb4, 0x017c4dda, 0x00be26ed);
  }

  lemma Ones4()
    ensures Zeros(0x00be26ed, 8) == 0xdebb20e3
  {
    EightZeros(0x00be26ed, 0xede79056, 0x76f3c82b, 0xd6c16735, 0x86d830ba, 0x436c185d, 0xcc0e8f0e, 0x66074787, 0xdebb20e3);
  }

  /** A full register after 32 zero bits. */
  lemma OnesThrough()
    ensures Zeros(0xffffffff, 32) == 0xdebb20e3
  {
    hide Bit, Zeros;
    Ones1();
    Ones2();
    Ones3();
    Ones4();
    ZerosAdd(0xffffffff, 8, 8);
    ZerosAdd(0xffffffff, 16, 8);
    ZerosAdd(0xffffffff, 24, 8);
  }

  // ----- the residue -----

  /** The bytes of a checksum, low byte first. */
  function LowFirst(x: bv32): seq<bv8> {
    [(x & 0xff) as bv8, ((x >> 8) & 0xff) as bv8, ((x >> 16) & 0xff) as bv8, (x >> 24) as bv8]
  }

  lemma LowFirstWord(x: bv32)
    ensures var s := LowFirst(x); LittleWord(s[0] as bv32, s[1] as bv32, s[2] as bv32, s[3] as bv32) == x
  {
  }

  lemma Complement(r: bv32)
    ensures Xor(r, Not(r)) == 0xffffffff
  {
  }

  lemma NotResidue()
    ensures Not(0xdebb20e3) == 0x2144df1c
  {
  }

  /** Data followed by its own checksum has always the same checksum, whatever the data and whatever came before. */
  lemma Residue(crc: bv32, s: seq<bv8>)
    ensures Crc32(crc, s + LowFirst(Crc32(crc, s))) == 0x2144df1c
  {
    hide Xor, Zeros, Register, Feed, LittleWord, Not, LowFirst;
    var r := Register(Not(crc), s);
    var t := LowFirst(Not(r));
    var all := s + t;
    assert all[..|s|] == s && all[..|all|] == all;
    TrailSize(Not(r));
    RegisterWord(Not(crc), all, |s|);
    LowFirstWord(Not(r));
    LittleIs(all, |s|);
    Complement(r);
    OnesThrough();
    NotResidue();
  }

  lemma TrailSize(x: bv32)
    ensures |LowFirst(x)| == 4
  {
  }

  lemma LittleIs(buf: seq<bv8>, i: nat)
    requires i + 4 <= |buf|
    ensures LittleAt(buf, i) == LittleWord(buf[i] as bv32, buf[i + 1] as bv32, buf[i + 2] as bv32, buf[i + 3] as bv32)
  {
  }

  // ----- the check value -----

  lemma FeedIs(c: bv32, b: bv8, x: bv32, c': bv32)
    requires Xor(c, b as bv32) == x && Zeros(x, 8) == c'
    ensures Feed(c, b) == c'
  {
  }

  lemma Digit1()
    ensures Feed(0xffffffff, 0x31) == 0x7c231048
  {
    EightZeros(0xffffffce, 0x7fffffe7, 0xd2477cd3, 0x849b3d49, 0xaff51d84, 0x57fa8ec2, 0x2bfd4761, 0xf8462090, 0x7c231048);
    FeedIs(0xffffffff, 0x31, 0xffffffce, 0x7c231048);
  }

  lemma Digit2()
    ensures Feed(0x7c231048, 0x32) == 0xb0acbb32
  {
    EightZeros(0x7c23107a, 0x3e11883d, 0xf2b0473e, 0x7958239f, 0xd11492ef, 0x8532ca57, 0xaf21e60b, 0xba287025, 0xb0acbb32);
    FeedIs(0x7c231048, 0x32, 0x7c23107a, 0xb0acbb32);
  }

  lemma Digit3()
    ensures Feed(0xb0acbb32, 0x33) == 0x77b79c2d
  {
    EightZeros(0xb0acbb01, 0xb5eedea0, 0x5af76f50, 0x2d7bb7a8, 0x16bddbd4, 0x0b5eedea, 0x05af76f5, 0xef6f385a, 0x77b79c2d);
    FeedIs(0xb0acbb32, 0x33, 0xb0acbb01, 0x77b79c2d);
  }

  lemma Digit4()
    ensures Feed(0x77b79c2d, 0x34) == 0x641c1f5c
  {
    EightZeros(0x77b79c19, 0xd6634d2c, 0x6b31a696, 0x3598d34b, 0xf774ea85, 0x9602f662, 0x4b017b31, 0xc8383eb8, 0x641c1f5c);
    FeedIs(0x77b79c2d, 0x34, 0x77b79c19, 0x641c1f5c);
  }

  lemma Digit5()
    ensures Feed(0x641c1f5c, 0x35) == 0x340ac5e3
  {
    EightZeros(0x641c1f69, 0xdfb68c94, 0x6fdb464a, 0x37eda325, 0xf64e52b2, 0x7b272959, 0xd02b178c, 0x68158bc6, 0x340ac5e3);
    FeedIs(0x641c1f5c, 0x35, 0x641c1f69, 0x340ac5e3);
  }

  lemma Digit6()
    ensures Feed(0x340ac5e3, 0x36) == 0xf68d2c9e
  {
    EightZeros(0x340ac5d5, 0xf7bde1ca, 0x7bdef0e5, 0xd057fb52, 0x682bfda9, 0xd9ad7df4, 0x6cd6befa, 0x366b5f7d, 0xf68d2c9e);
    FeedIs(0x340ac5e3, 0x36, 0x340ac5d5, 0xf68d2c9e);
  }

  lemma Digit7()
    ensures Feed(0xf68d2c9e, 0x37) == 0xaffc9660
  {
    EightZeros(0xf68d2ca9, 0x96fe1574, 0x4b7f0aba, 0x25bf855d, 0xff67418e, 0x7fb3a0c7, 0xd2615343, 0x84882a81, 0xaffc9660);
    FeedIs(0xf68d2c9e, 0x37, 0xf68d2ca9, 0xaffc9660);
  }

  lemma Digit8()
    ensures Feed(0xaffc9660, 0x38) == 0x651f2550
  {
    EightZeros(0xaffc9658, 0x57fe4b2c, 0x2bff2596, 0x15ff92cb, 0xe7474a45, 0x9e1b2602, 0x4f0d9301, 0xca3e4aa0, 0x651f2550);
    FeedIs(0xaffc9660, 0x38, 0xaffc9658, 0x651f2550);
  }

  lemma Digit9()
    ensures Feed(0x651f2550, 0x39) == 0x340bc6d9
  {
    EightZeros(0x651f2569, 0xdf371194, 0x6f9b88ca, 0x37cdc465, 0xf65e6112, 0x7b2f3089, 0xd02f1b64, 0x68178db2, 0x340bc6d9);
    FeedIs(0x651f2550, 0x39, 0x651f2569, 0x340bc6d9);
  }

  /** The checksum of the digits 1 to 9. */
  lemma CheckValue()
    ensures Crc32(0, [0x31, 0x32, 0x33, 0x34, 0x35, 0x36, 0x37, 0x38, 0x39]) == 0xcbf43926
  {
    hide Feed, Register, Not;
    var s: seq<bv8> := [0x31, 0x32, 0x33, 0x34, 0x35, 0x36, 0x37, 0x38, 0x39];
    RegisterStart(0xffffffff, s);
    RegisterByte(0xffffffff, s, 0);
    Digit1();
    RegisterByte(0xffffffff, s, 1);
    Digit2();
    RegisterByte(0xffffffff, s, 2);
    Digit3();
    RegisterByte(0xffffffff, s, 3);
    Digit4();
    RegisterByte(0xffffffff, s, 4);
    Digit5();
    RegisterByte(0xffffffff, s, 5);
    Digit6();
    RegisterByte(0xffffffff, s, 6);
    Digit7();
    RegisterByte(0xffffffff, s, 7);
    Digit8();
    RegisterByte(0xffffffff, s, 8);
    Digit9();
    assert s[..9] == s;
    NotStart();
  }

  lemma NotStart()
    ensures Not(0) == 0xffffffff && Not(0x340bc6d9) == 0xcbf43926
  {
  }
}
