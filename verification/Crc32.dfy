/**
  dep/zlib/crc32.c, lines 86-337: the tables, and the CRC a byte or a word at a time on machines
  of either byte order, all equal to the bit-by-bit CRC.
*/
module Crc32 {
  import opened Crc

  // ----- bytes of a word -----

  function Byte0(x: bv32): bv32 { x & 0xff }

  function Byte1(x: bv32): bv32 { (x >> 8) & 0xff }

  function Byte2(x: bv32): bv32 { (x >> 16) & 0xff }

  function Byte3(x: bv32): bv32 { x >> 24 }

  function Right8(x: bv32): bv32 { x >> 8 }

  lemma BytesFit(x: bv32)
    ensures Byte0(x) <= 0xff && Byte1(x) <= 0xff && Byte2(x) <= 0xff && Byte3(x) <= 0xff && Right8(x) <= 0xffffff
  {
  }

  function Left8(x: bv32): bv32 { x << 8 }

  function Left16(x: bv32): bv32 { x << 16 }

  function Left24(x: bv32): bv32 { x << 24 }

  lemma UpEight(x: bv32)
    ensures Up(x, 8) == Left8(x)
  {
    assert Up(x, 8) == Up(Double(Double(Double(Double(x)))), 4);
    assert Up(x, 8) == Up(Double(Double(Double(Double(Double(Double(Double(Double(x)))))))), 0);
  }

  lemma {:induction false} UpAdd(x: bv32, j: nat, k: nat)
    ensures Up(x, j + k) == Up(Up(x, j), k)
    decreases j
  {
    hide Double;
    if j > 0 { UpAdd(Double(x), j - 1, k); }
  }

  lemma LeftTwice(x: bv32)
    ensures Left8(Left8(x)) == Left16(x) && Left8(Left16(x)) == Left24(x)
  {
  }

  lemma UpMore(x: bv32)
    ensures Up(x, 16) == Left16(x) && Up(x, 24) == Left24(x)
  {
    hide Up, Left8, Left16, Left24;
    UpEight(x);
    UpAdd(x, 8, 8);
    UpEight(Left8(x));
    UpAdd(x, 16, 8);
    UpEight(Left16(x));
    LeftTwice(x);
  }

  lemma WordSplit(x: bv32)
    ensures Byte0(x) ^ Left8(Right8(x)) == x
  {
  }

  /** A word is its low byte and the rest. */
  lemma Split(x: bv32)
    ensures Xor(Byte0(x), Up(Right8(x), 8)) == x
  {
    hide Byte0, Right8, Left8, Up, Xor;
    WordSplit(x);
    UpEight(Right8(x));
    XorIs(Byte0(x), Left8(Right8(x)));
  }

  lemma WordBytes(x: bv32)
    ensures Xor(Xor(Xor(Byte0(x), Left8(Byte1(x))), Left16(Byte2(x))), Left24(Byte3(x))) == x
  {
  }

  /** A word is its four bytes. */
  lemma Bytes(x: bv32)
    ensures Xor(Xor(Xor(Byte0(x), Up(Byte1(x), 8)), Up(Byte2(x), 16)), Up(Byte3(x), 24)) == x
  {
    hide Byte0, Byte1, Byte2, Byte3, Left8, Left16, Left24, Up, Xor;
    WordBytes(x);
    UpEight(Byte1(x));
    UpMore(Byte2(x));
    UpMore(Byte3(x));
  }

  /** Four bytes as a little-endian machine reads them. */
  function LittleWord(b0: bv32, b1: bv32, b2: bv32, b3: bv32): bv32 {
    b0 | Left8(b1) | Left16(b2) | Left24(b3)
  }

  predicate IsByte(b: bv32) {
    b <= 0xff
  }

  lemma WordOfBytes(b0: bv32, b1: bv32, b2: bv32, b3: bv32)
    requires IsByte(b0) && IsByte(b1) && IsByte(b2) && IsByte(b3)
    ensures Xor(Xor(Xor(b0, Left8(b1)), Left16(b2)), Left24(b3)) == LittleWord(b0, b1, b2, b3)
  {
  }

  lemma LittleBytes(b0: bv32, b1: bv32, b2: bv32, b3: bv32)
    requires IsByte(b0) && IsByte(b1) && IsByte(b2) && IsByte(b3)
    ensures Xor(Xor(Xor(b0, Up(b1, 8)), Up(b2, 16)), Up(b3, 24)) == LittleWord(b0, b1, b2, b3)
  {
    hide LittleWord, Left8, Left16, Left24, Up, Xor, IsByte;
    WordOfBytes(b0, b1, b2, b3);
    UpEight(b1);
    UpMore(b2);
    UpMore(b3);
  }

  // ----- a byte through the table -----

  lemma ByteFits(b: bv32)
    requires b <= 0xff
    ensures Fits(b, 8)
  {
    hide Half;
    TopEight();
  }

  lemma TopEight()
    ensures Top(8) == 0xff && Top(24) == 0xffffff
  {
    assert Top(28) == 0x0fffffff;
    assert Top(24) == 0x00ffffff;
    assert Top(20) == 0x000fffff;
    assert Top(16) == 0x0000ffff;
    assert Top(12) == 0x00000fff;
  }

  /** A byte n bits up, after m more zero bits than n. */
  lemma DropUp(b: bv32, n: nat, m: nat)
    requires b <= 0xff && n <= 24
    ensures Zeros(Up(b, n), n + m) == Zeros(b, m)
  {
    hide Up, Zeros, Fits;
    ByteFits(b);
    FitsMore(b, 8, 32 - n);
    ZerosUp(b, n);
    ZerosAdd(Up(b, n), n, m);
  }

  lemma DropRest(y: bv32)
    requires y <= 0xffffff
    ensures Zeros(Up(y, 8), 8) == y
  {
    TopEight();
    ZerosUp(y, 8);
  }

  lemma HighPart(c: bv32, b: bv8)
    ensures Right8(Xor(c, b as bv32)) == Right8(c)
  {
  }

  /** DO1: the table entry of the low byte, and the rest shifted down. */
  lemma ByteStep(c: bv32, b: bv8)
    ensures Xor(Zeros(Byte0(Xor(c, b as bv32)), 8), Right8(c)) == Feed(c, b)
  {
    hide Xor, Zeros, Byte0, Right8, Up;
    var x := Xor(c, b as bv32);
    Split(x);
    ZerosXor(Byte0(x), Up(Right8(x), 8), 8);
    BytesFit(x);
    DropRest(Right8(x));
    HighPart(c, b);
  }

  /** The step by which make_crc_table continues an entry by a zero byte. */
  lemma ZeroByte(c: bv32)
    ensures Xor(Zeros(Byte0(c), 8), Right8(c)) == Zeros(c, 8)
  {
    hide Xor, Zeros, Byte0, Right8;
    ByteStep(c, 0);
    XorZero(c);
  }

  // ----- a word -----

  /** A byte fed after n zero bits could have been put n bits up before them. */
  lemma FeedLater(x: bv32, n: nat, b: bv8)
    requires n <= 24
    ensures Feed(Zeros(x, n), b) == Zeros(Xor(x, Up(b as bv32, n)), n + 8)
  {
    hide Xor, Zeros, Up;
    DropUp(b as bv32, n, 0);
    NoZeros(b as bv32);
    ZerosXor(x, Up(b as bv32, n), n);
    ZerosAdd(Xor(x, Up(b as bv32, n)), n, 8);
  }

  /** Four bytes fed one after the other are one word fed at once. */
  lemma FeedWord(c: bv32, b0: bv8, b1: bv8, b2: bv8, b3: bv8)
    ensures Feed(Feed(Feed(Feed(c, b0), b1), b2), b3) ==
            Zeros(Xor(c, LittleWord(b0 as bv32, b1 as bv32, b2 as bv32, b3 as bv32)), 32)
  {
    hide Xor, Zeros, LittleWord, Up;
    var w0, u1, u2, u3 := b0 as bv32, Up(b1 as bv32, 8), Up(b2 as bv32, 16), Up(b3 as bv32, 24);
    var x0 := Xor(c, w0);
    FeedLater(x0, 8, b1);
    FeedLater(Xor(x0, u1), 16, b2);
    FeedLater(Xor(Xor(x0, u1), u2), 24, b3);
    assert IsByte(w0) && IsByte(b1 as bv32) && IsByte(b2 as bv32) && IsByte(b3 as bv32);
    LittleBytes(w0, b1 as bv32, b2 as bv32, b3 as bv32);
    XorAssoc(c, w0, u1);
    XorAssoc(c, Xor(w0, u1), u2);
    XorAssoc(c, Xor(Xor(w0, u1), u2), u3);
  }

  /** DOLIT4: the entries of the four bytes, each from the table with as many zero bytes after it. */
  lemma WordStep(x: bv32)
    ensures Xor(Xor(Xor(Zeros(Byte0(x), 32), Zeros(Byte1(x), 24)), Zeros(Byte2(x), 16)), Zeros(Byte3(x), 8)) == Zeros(x, 32)
  {
    hide Xor, Zeros, Byte0, Byte1, Byte2, Byte3, Up;
    var u1, u2, u3 := Up(Byte1(x), 8), Up(Byte2(x), 16), Up(Byte3(x), 24);
    BytesFit(x);
    Bytes(x);
    DropUp(Byte1(x), 8, 24);
    DropUp(Byte2(x), 16, 16);
    DropUp(Byte3(x), 24, 8);
    ZerosXor(Xor(Xor(Byte0(x), u1), u2), u3, 32);
    ZerosXor(Xor(Byte0(x), u1), u2, 32);
    ZerosXor(Byte0(x), u1, 32);
  }

  // ----- the other byte order -----

  /** REV. */
  function Rev(w: bv32): bv32 {
    ((w >> 24) & 0xff) + ((w >> 8) & 0xff00) + ((w & 0xff00) << 8) + ((w & 0xff) << 24)
  }

  lemma RevXor(a: bv32, b: bv32)
    ensures Rev(Xor(a, b)) == Xor(Rev(a), Rev(b))
  {
  }

  lemma RevRev(a: bv32)
    ensures Rev(Rev(a)) == a
  {
  }

  lemma RevNot(a: bv32)
    ensures Rev(Not(a)) == Not(Rev(a))
  {
  }

  lemma RevBytes(x: bv32)
    ensures Byte0(Rev(x)) == Byte3(x) && Byte1(Rev(x)) == Byte2(x) && Byte2(Rev(x)) == Byte1(x) && Byte3(Rev(x)) == Byte0(x)
  {
  }

  lemma WordRevShift(x: bv32)
    ensures Rev(x) << 8 == Rev(x >> 8)
  {
  }

  lemma ShiftsAre(x: bv32)
    ensures Right8(x) == x >> 8 && Left8(x) == x << 8
  {
  }

  lemma RevShift(x: bv32)
    ensures Left8(Rev(x)) == Rev(Right8(x))
  {
    hide Rev, Left8, Right8;
    WordRevShift(x);
    ShiftsAre(x);
    ShiftsAre(Rev(x));
  }

  /** Four bytes as a big-endian machine reads them. */
  function BigWord(b0: bv32, b1: bv32, b2: bv32, b3: bv32): bv32 {
    b3 | Left8(b2) | Left16(b1) | Left24(b0)
  }

  lemma BigLittle(b0: bv32, b1: bv32, b2: bv32, b3: bv32)
    requires IsByte(b0) && IsByte(b1) && IsByte(b2) && IsByte(b3)
    ensures BigWord(b0, b1, b2, b3) == Rev(LittleWord(b0, b1, b2, b3))
  {
  }

  lemma ByteXor(r: bv32, b: bv8)
    ensures Byte3(Rev(r)) ^ (b as bv32) == Byte0(Xor(r, b as bv32))
  {
  }

  /** The byte step on reversed registers. */
  lemma BigByteStep(r: bv32, b: bv8)
    ensures Xor(Rev(Zeros(Byte0(Xor(r, b as bv32)), 8)), Left8(Rev(r))) == Rev(Feed(r, b))
  {
    hide Xor, Zeros, Byte0, Right8, Left8, Rev;
    ByteStep(r, b);
    RevXor(Zeros(Byte0(Xor(r, b as bv32)), 8), Right8(r));
    RevShift(r);
  }

  /** DOBIG4 on reversed registers. */
  lemma BigWordStep(x: bv32)
    ensures Xor(Xor(Xor(Rev(Zeros(Byte3(x), 8)), Rev(Zeros(Byte2(x), 16))), Rev(Zeros(Byte1(x), 24))), Rev(Zeros(Byte0(x), 32))) ==
            Rev(Zeros(x, 32))
  {
    hide Xor, Zeros, Byte0, Byte1, Byte2, Byte3, Rev;
    var z0, z1, z2, z3 := Zeros(Byte0(x), 32), Zeros(Byte1(x), 24), Zeros(Byte2(x), 16), Zeros(Byte3(x), 8);
    WordStep(x);
    Backwards(z0, z1, z2, z3);
    RevXor(Xor(Xor(z3, z2), z1), z0);
    RevXor(Xor(z3, z2), z1);
    RevXor(z3, z2);
  }

  lemma Backwards(a: bv32, b: bv32, c: bv32, d: bv32)
    ensures Xor(Xor(Xor(a, b), c), d) == Xor(Xor(Xor(d, c), b), a)
  {
    hide Xor;
    XorComm(a, b);
    XorComm(Xor(b, a), c);
    XorComm(Xor(c, Xor(b, a)), d);
    XorAssoc(c, b, a);
    XorAssoc(d, Xor(c, b), a);
    XorAssoc(d, c, b);
  }

  // ----- the tables -----

  /** Entry n of tables k and k + 4: the byte followed by k zero bytes, and that reversed. */
  ghost predicate Holds(t: array2<bv32>, k: nat, n: bv8)
    requires t.Length0 == 8 && t.Length1 == 256 && k < 4
    reads t
  {
    t[k, n as int] == Zeros(n as bv32, 8 * k + 8) && t[k + 4, n as int] == Rev(Zeros(n as bv32, 8 * k + 8))
  }

  ghost predicate Tables(t: array2<bv32>)
    reads t
  {
    t.Length0 == 8 && t.Length1 == 256 && forall k: nat, n: bv8 :: k < 4 ==> Holds(t, k, n)
  }

  lemma Index(x: bv32)
    requires IsByte(x)
    ensures (x as bv8) as int == x as int < 256 && (x as bv8) as bv32 == x
  {
  }

  /** A look-up in table k. */
  lemma Entry(t: array2<bv32>, k: nat, x: bv32)
    requires Tables(t) && k < 4 && IsByte(x)
    ensures x as int < 256
    ensures t[k, x as int] == Zeros(x, 8 * k + 8) && t[k + 4, x as int] == Rev(Zeros(x, 8 * k + 8))
  {
    hide Zeros, Rev;
    Index(x);
    assert Holds(t, k, x as bv8);
  }

  // ----- little-endian -----

  /** The byte loop of crc32_little. */
  method DoByte(t: array2<bv32>, c: bv32, b: bv8) returns (c': bv32)
    requires Tables(t)
    ensures c' == Feed(c, b)
  {
    hide Zeros, Rev, Xor, Byte0, Right8, Tables;
    ByteStep(c, b);
    var x := Xor(c, b as bv32);
    BytesAre(x);
    Entry(t, 0, Byte0(x));
    TablesSize(t);
    c' := Xor(t[0, Byte0(x) as int], Right8(c));
  }

  lemma TablesSize(t: array2<bv32>)
    requires Tables(t)
    ensures t.Length0 == 8 && t.Length1 == 256
  {
  }

  lemma BytesAre(x: bv32)
    ensures IsByte(Byte0(x)) && IsByte(Byte1(x)) && IsByte(Byte2(x)) && IsByte(Byte3(x))
  {
  }

  /** DOLIT4. */
  method DoLit4(t: array2<bv32>, c0: bv32, word: bv32) returns (c: bv32)
    requires Tables(t)
    ensures c == Zeros(Xor(c0, word), 32)
  {
    hide Zeros, Rev, Xor, Byte0, Byte1, Byte2, Byte3, Tables, IsByte;
    c := Xor(c0, word);
    TablesSize(t);
    BytesAre(c);
    WordStep(c);
    Entry(t, 3, Byte0(c));
    Entry(t, 2, Byte1(c));
    Entry(t, 1, Byte2(c));
    Entry(t, 0, Byte3(c));
    c := Xor(Xor(Xor(t[3, Byte0(c) as int], t[2, Byte1(c) as int]), t[1, Byte2(c) as int]), t[0, Byte3(c) as int]);
  }

  /** The next four bytes of the buffer, as the two kinds of machine read them. */
  function LittleAt(buf: seq<bv8>, i: nat): bv32
    requires i + 4 <= |buf|
  {
    LittleWord(buf[i] as bv32, buf[i + 1] as bv32, buf[i + 2] as bv32, buf[i + 3] as bv32)
  }

  function BigAt(buf: seq<bv8>, i: nat): bv32
    requires i + 4 <= |buf|
  {
    BigWord(buf[i] as bv32, buf[i + 1] as bv32, buf[i + 2] as bv32, buf[i + 3] as bv32)
  }

  lemma RegisterByte(c: bv32, buf: seq<bv8>, i: nat)
    requires i < |buf|
    ensures Register(c, buf[..i + 1]) == Feed(Register(c, buf[..i]), buf[i])
  {
    hide Feed;
    assert buf[..i + 1][..i] == buf[..i];
  }

  lemma RegisterWord(c: bv32, buf: seq<bv8>, i: nat)
    requires i + 4 <= |buf|
    ensures Register(c, buf[..i + 4]) == Zeros(Xor(Register(c, buf[..i]), LittleAt(buf, i)), 32)
  {
    hide Feed, Zeros, Xor, Register, LittleWord;
    RegisterByte(c, buf, i);
    RegisterByte(c, buf, i + 1);
    RegisterByte(c, buf, i + 2);
    RegisterByte(c, buf, i + 3);
    FeedWord(Register(c, buf[..i]), buf[i], buf[i + 1], buf[i + 2], buf[i + 3]);
  }

  lemma RegisterStart(c: bv32, buf: seq<bv8>)
    ensures Register(c, buf[..0]) == c
  {
  }

  /** DOLIT32: eight words. */
  method DoLit32(t: array2<bv32>, c0: bv32, buf: seq<bv8>, i: nat, ghost start: bv32) returns (c: bv32)
    requires Tables(t) && i + 32 <= |buf| && c0 == Register(start, buf[..i])
    ensures c == Register(start, buf[..i + 32])
  {
    hide Zeros, Xor, Register, LittleAt, Tables;
    c := c0;
    for k := 0 to 8
      invariant c == Register(start, buf[..i + 4 * k])
    {
      RegisterWord(start, buf, i + 4 * k);
      c := DoLit4(t, c, LittleAt(buf, i + 4 * k));
    }
  }

  /**
    crc32_little for a buffer at the given address: head bytes up to a word boundary, runs of 32
    bytes, words, and tail bytes.
  */
  method Crc32Little(t: array2<bv32>, crc: bv32, buf: seq<bv8>, address: nat) returns (r: bv32)
    requires Tables(t)
    ensures r == Crc32(crc, buf)
  {
    hide Zeros, Xor, Not, Register, Feed, LittleAt, Tables;
    var c := Not(crc);
    ghost var start := c;
    RegisterStart(c, buf);
    var i, len := 0, |buf|;
    while len != 0 && (address + i) % 4 != 0
      invariant 0 <= i <= |buf| && len == |buf| - i && c == Register(start, buf[..i])
      decreases len
    {
      RegisterByte(start, buf, i);
      c := DoByte(t, c, buf[i]);
      i := i + 1;
      len := len - 1;
    }
    while len >= 32
      invariant 0 <= i <= |buf| && len == |buf| - i && c == Register(start, buf[..i])
      decreases len
    {
      c := DoLit32(t, c, buf, i, start);
      i := i + 32;
      len := len - 32;
    }
    while len >= 4
      invariant 0 <= i <= |buf| && len == |buf| - i && c == Register(start, buf[..i])
      decreases len
    {
      RegisterWord(start, buf, i);
      c := DoLit4(t, c, LittleAt(buf, i));
      i := i + 4;
      len := len - 4;
    }
    while len != 0
      invariant 0 <= i <= |buf| && len == |buf| - i && c == Register(start, buf[..i])
      decreases len
    {
      RegisterByte(start, buf, i);
      c := DoByte(t, c, buf[i]);
      i := i + 1;
      len := len - 1;
    }
    assert buf[..i] == buf;
    return Not(c);
  }

  // ----- big-endian -----

  /** The byte loop of crc32_big, on the reversed register. */
  method DoBigByte(t: array2<bv32>, c: bv32, b: bv8, ghost r: bv32) returns (c': bv32)
    requires Tables(t) && c == Rev(r)
    ensures c' == Rev(Feed(r, b))
  {
    hide Zeros, Rev, Xor, Byte0, Byte3, Left8, Tables, IsByte, Feed;
    BigByteStep(r, b);
    var x := Byte3(c) ^ (b as bv32);
    ByteXor(r, b);
    BytesAre(Xor(r, b as bv32));
    Entry(t, 0, x);
    TablesSize(t);
    c' := Xor(t[4, x as int], Left8(c));
  }

  /** DOBIG4. */
  method DoBig4(t: array2<bv32>, c0: bv32, word: bv32, ghost r: bv32, ghost little: bv32) returns (c: bv32)
    requires Tables(t) && c0 == Rev(r) && word == Rev(little)
    ensures c == Rev(Zeros(Xor(r, little), 32))
  {
    hide Zeros, Rev, Xor, Byte0, Byte1, Byte2, Byte3, Tables, IsByte;
    c := Xor(c0, word);
    ghost var x := Xor(r, little);
    RevXor(r, little);
    TablesSize(t);
    BytesAre(c);
    RevBytes(x);
    BigWordStep(x);
    Entry(t, 0, Byte0(c));
    Entry(t, 1, Byte1(c));
    Entry(t, 2, Byte2(c));
    Entry(t, 3, Byte3(c));
    c := Xor(Xor(Xor(t[4, Byte0(c) as int], t[5, Byte1(c) as int]), t[6, Byte2(c) as int]), t[7, Byte3(c) as int]);
  }

  lemma BigIsReversed(buf: seq<bv8>, i: nat)
    requires i + 4 <= |buf|
    ensures BigAt(buf, i) == Rev(LittleAt(buf, i))
  {
    hide BigWord, LittleWord, Rev;
    BytesAreBytes(buf[i]);
    BytesAreBytes(buf[i + 1]);
    BytesAreBytes(buf[i + 2]);
    BytesAreBytes(buf[i + 3]);
    BigLittle(buf[i] as bv32, buf[i + 1] as bv32, buf[i + 2] as bv32, buf[i + 3] as bv32);
  }

  lemma BytesAreBytes(b: bv8)
    ensures IsByte(b as bv32)
  {
  }

  /** DOBIG32: eight words. */
  method DoBig32(t: array2<bv32>, c0: bv32, buf: seq<bv8>, i: nat, ghost start: bv32) returns (c: bv32)
    requires Tables(t) && i + 32 <= |buf| && c0 == Rev(Register(start, buf[..i]))
    ensures c == Rev(Register(start, buf[..i + 32]))
  {
    hide Zeros, Xor, Register, LittleAt, BigAt, Tables, Rev;
    c := c0;
    for k := 0 to 8
      invariant c == Rev(Register(start, buf[..i + 4 * k]))
    {
      RegisterWord(start, buf, i + 4 * k);
      BigIsReversed(buf, i + 4 * k);
      c := DoBig4(t, c, BigAt(buf, i + 4 * k), Register(start, buf[..i + 4 * k]), LittleAt(buf, i + 4 * k));
    }
  }

  /** crc32_big: the same on a register kept in reversed byte order. */
  method Crc32Big(t: array2<bv32>, crc: bv32, buf: seq<bv8>, address: nat) returns (r: bv32)
    requires Tables(t)
    ensures r == Crc32(crc, buf)
  {
    hide Zeros, Xor, Not, Register, Feed, LittleAt, BigAt, Tables, Rev;
    var c := Rev(crc);
    c := Not(c);
    ghost var start := Not(crc);
    RevNot(crc);
    RegisterStart(start, buf);
    var i, len := 0, |buf|;
    while len != 0 && (address + i) % 4 != 0
      invariant 0 <= i <= |buf| && len == |buf| - i && c == Rev(Register(start, buf[..i]))
      decreases len
    {
      RegisterByte(start, buf, i);
      c := DoBigByte(t, c, buf[i], Register(start, buf[..i]));
      i := i + 1;
      len := len - 1;
    }
    while len >= 32
      invariant 0 <= i <= |buf| && len == |buf| - i && c == Rev(Register(start, buf[..i]))
      decreases len
    {
      c := DoBig32(t, c, buf, i, start);
      i := i + 32;
      len := len - 32;
    }
    while len >= 4
      invariant 0 <= i <= |buf| && len == |buf| - i && c == Rev(Register(start, buf[..i]))
      decreases len
    {
      RegisterWord(start, buf, i);
      BigIsReversed(buf, i);
      c := DoBig4(t, c, BigAt(buf, i), Register(start, buf[..i]), LittleAt(buf, i));
      i := i + 4;
      len := len - 4;
    }
    while len != 0
      invariant 0 <= i <= |buf| && len == |buf| - i && c == Rev(Register(start, buf[..i]))
      decreases len
    {
      RegisterByte(start, buf, i);
      c := DoBigByte(t, c, buf[i], Register(start, buf[..i]));
      i := i + 1;
      len := len - 1;
    }
    assert buf[..i] == buf;
    RevNot(Register(start, buf));
    RevRev(Not(Register(start, buf)));
    c := Not(c);
    return Rev(c);
  }

  // ----- make_crc_table -----

  /** The bit of the term x^e of the polynomial. */
  function Term(e: int): bv32
    requires 0 <= e <= 31
  {
    (1 as bv32) << (31 - e)
  }

  const TERMS: seq<int> := [0, 1, 2, 4, 5, 7, 8, 10, 11, 12, 16, 22, 23, 26]

  function PolyOf(k: nat): bv32
    requires k <= 14
  {
    if k == 0 then 0 else PolyOf(k - 1) | Term(TERMS[k - 1])
  }

  lemma PolyStep(k: nat, e: int, before: bv32, after: bv32)
    requires k < 14 && TERMS[k] == e && PolyOf(k) == before && before | Term(e) == after
    ensures PolyOf(k + 1) == after
  {
  }

  lemma PolyHigh()
    ensures PolyOf(5) == 0xec000000
  {
    hide PolyOf;
    NoTerms();
    PolyStep(0, 0, 0x00000000, 0x80000000);
    PolyStep(1, 1, 0x80000000, 0xc0000000);
    PolyStep(2, 2, 0xc0000000, 0xe0000000);
    PolyStep(3, 4, 0xe0000000, 0xe8000000);
    PolyStep(4, 5, 0xe8000000, 0xec000000);
  }

  lemma PolyMiddle()
    ensures PolyOf(10) == 0xedb80000
  {
    hide PolyOf;
    PolyHigh();
    PolyStep(5, 7, 0xec000000, 0xed000000);
    PolyStep(6, 8, 0xed000000, 0xed800000);
    PolyStep(7, 10, 0xed800000, 0xeda00000);
    PolyStep(8, 11, 0xeda00000, 0xedb00000);
    PolyStep(9, 12, 0xedb00000, 0xedb80000);
  }

  lemma PolyValue()
    ensures PolyOf(14) == POLY
  {
    hide PolyOf;
    PolyMiddle();
    PolyStep(10, 16, 0xedb80000, 0xedb88000);
    PolyStep(11, 22, 0xedb88000, 0xedb88200);
    PolyStep(12, 23, 0xedb88200, 0xedb88300);
    PolyStep(13, 26, 0xedb88300, 0xedb88320);
  }

  lemma NoTerms()
    ensures PolyOf(0) == 0
  {
  }

  lemma WordBack(w: bv32)
    ensures (w as int) as bv32 == w
  {
  }

  lemma ByteValue(m: bv8)
    ensures (m as bv32) as int == m as int
  {
  }

  lemma WordOf(m: bv8)
    ensures (m as int) as bv32 == m as bv32
  {
    WordBack(m as bv32);
    ByteValue(m);
  }

  /** One round of the eight-bit loop. */
  lemma BitIs(c: bv32)
    ensures Bit(c) == if c & 1 == 1 then Xor(POLY, Half(c)) else Half(c)
  {
    XorComm(Half(c), Low(c));
    XorZero(Half(c));
  }

  method ByteCrc(poly: bv32, n: bv32) returns (c: bv32)
    requires poly == POLY
    ensures c == Zeros(n, 8)
  {
    hide Xor, Half, Bit;
    c := n;
    for k := 0 to 8
      invariant Zeros(c, 8 - k) == Zeros(n, 8)
    {
      BitIs(c);
      c := if c & 1 == 1 then Xor(poly, Half(c)) else Half(c);
    }
  }

  method MakePoly() returns (poly: bv32)
    ensures poly == POLY
  {
    poly := 0;
    for n := 0 to 14
      invariant poly == PolyOf(n)
    {
      poly := poly | Term(TERMS[n]);
    }
    PolyValue();
  }

  /** A byte value as a word. */
  function Word(n: int): bv32
    requires 0 <= n < 256
  {
    n as bv32
  }

  /** The first table is complete below n. */
  ghost predicate First(t: array2<bv32>, n: int)
    reads t
  {
    && t.Length0 == 8 && t.Length1 == 256
    && forall m: int :: 0 <= m < n && m < 256 ==> t[0, m] == Zeros(Word(m), 8)
  }

  /** All tables are complete for the bytes below n. */
  ghost predicate Done(t: array2<bv32>, n: int)
    reads t
  {
    && t.Length0 == 8 && t.Length1 == 256
    && forall k: nat, m: int :: k < 4 && 0 <= m < n && m < 256 ==>
         t[k, m] == Zeros(Word(m), 8 * k + 8) && t[k + 4, m] == Rev(Zeros(Word(m), 8 * k + 8))
  }

  lemma DoneTables(t: array2<bv32>)
    requires Done(t, 256)
    ensures Tables(t)
  {
    hide Zeros, Rev;
    forall k: nat, n: bv8 | k < 4 ensures Holds(t, k, n) {
      WordOf(n);
      assert t[k, n as int] == Zeros(Word(n as int), 8 * k + 8);
    }
  }

  method FirstTable(t: array2<bv32>)
    requires t.Length0 == 8 && t.Length1 == 256
    modifies t
    ensures First(t, 256)
  {
    hide Zeros, Word;
    var poly := MakePoly();
    for n := 0 to 256
      invariant First(t, n)
    {
      t[0, n] := ByteCrc(poly, Word(n));
    }
  }

  /** An entry followed by one more zero byte. */
  lemma NextEntry(t: array2<bv32>, c: bv32)
    requires First(t, 256)
    ensures Byte0(c) as int < 256 && Xor(t[0, Byte0(c) as int], Right8(c)) == Zeros(c, 8)
  {
    hide Zeros, Xor, Byte0, Right8, IsByte;
    ZeroByte(c);
    BytesAre(c);
    Index(Byte0(c));
    WordBack(Byte0(c));
  }

  /** The entries of byte n in the first k tables, and their reversals. */
  ghost predicate Partly(t: array2<bv32>, n: int, k: nat)
    requires t.Length0 == 8 && t.Length1 == 256 && 0 <= n < 256 && k <= 4
    reads t
  {
    forall j: nat :: j < k ==> t[j, n] == Zeros(Word(n), 8 * j + 8) && t[j + 4, n] == Rev(Zeros(Word(n), 8 * j + 8))
  }

  method SetEntry(t: array2<bv32>, n: int, k: nat, c: bv32)
    requires 0 <= n < 256 && 1 <= k < 4 && First(t, 256) && Done(t, n) && Partly(t, n, k) && c == Zeros(Word(n), 8 * k + 8)
    modifies t
    ensures First(t, 256) && Done(t, n) && Partly(t, n, k + 1)
  {
    hide Zeros, Rev, Word;
    t[k, n] := c;
    t[k + 4, n] := Rev(c);
  }

  method BeginEntry(t: array2<bv32>, n: int) returns (c: bv32)
    requires 0 <= n < 256 && First(t, 256) && Done(t, n)
    modifies t
    ensures First(t, 256) && Done(t, n) && Partly(t, n, 1) && c == Zeros(Word(n), 8)
  {
    hide Zeros, Rev, Word;
    c := t[0, n];
    t[4, n] := Rev(c);
  }

  lemma EntryDone(t: array2<bv32>, n: int)
    requires 0 <= n < 256 && Done(t, n) && Partly(t, n, 4)
    ensures Done(t, n + 1)
  {
    hide Zeros, Rev, Word;
  }

  /** The entries of byte n in tables 1 to 7, from table 0. */
  method ExtendEntry(t: array2<bv32>, n: int)
    requires 0 <= n < 256 && First(t, 256) && Done(t, n)
    modifies t
    ensures First(t, 256) && Done(t, n + 1)
  {
    hide Zeros, Rev, Xor, Byte0, Right8, Word, Done, Partly;
    var c := BeginEntry(t, n);
    for k := 1 to 4
      invariant First(t, 256) && Done(t, n) && Partly(t, n, k) && c == Zeros(Word(n), 8 * k)
    {
      NextEntry(t, c);
      ZerosAdd(Word(n), 8 * k, 8);
      c := Xor(t[0, Byte0(c) as int], Right8(c));
      SetEntry(t, n, k, c);
    }
    EntryDone(t, n);
  }

  /** make_crc_table. */
  method MakeCrcTable(t: array2<bv32>)
    requires t.Length0 == 8 && t.Length1 == 256
    modifies t
    ensures Tables(t)
  {
    hide First, Done, Tables;
    FirstTable(t);
    NothingDone(t);
    for n := 0 to 256
      invariant First(t, 256) && Done(t, n)
    {
      ExtendEntry(t, n);
    }
    DoneTables(t);
  }

  lemma NothingDone(t: array2<bv32>)
    requires t.Length0 == 8 && t.Length1 == 256
    ensures Done(t, 0)
  {
  }

  // ----- crc32 -----

  /** The byte-at-a-time form used where no four-byte type is found. */
  method Crc32Bytes(t: array2<bv32>, crc: bv32, buf: seq<bv8>) returns (r: bv32)
    requires Tables(t)
    ensures r == Crc32(crc, buf)
  {
    hide Zeros, Xor, Not, Register, Feed, Tables;
    var c := Not(crc);
    ghost var start := c;
    RegisterStart(c, buf);
    var i, len := 0, |buf|;
    while len >= 8
      invariant 0 <= i <= |buf| && len == |buf| - i && c == Register(start, buf[..i])
      decreases len
    {
      ghost var from := i;
      for k := 0 to 8
        invariant i == from + k && c == Register(start, buf[..i])
      {
        RegisterByte(start, buf, i);
        c := DoByte(t, c, buf[i]);
        i := i + 1;
      }
      len := len - 8;
    }
    while len != 0
      invariant 0 <= i <= |buf| && len == |buf| - i && c == Register(start, buf[..i])
      decreases len
    {
      RegisterByte(start, buf, i);
      c := DoByte(t, c, buf[i]);
      i := i + 1;
      len := len - 1;
    }
    assert buf[..i] == buf;
    return Not(c);
  }

  /** crc32: no buffer gives zero; otherwise the form that fits the machine. Which one does not matter. */
  method Checksum(t: array2<bv32>, crc: bv32, buf: seq<bv8>, isNull: bool, byFour: bool, little: bool, address: nat)
    returns (r: bv32)
    requires Tables(t)
    ensures r == if isNull then 0 else Crc32(crc, buf)
  {
    hide Zeros, Xor, Not, Register, Feed, Tables;
    if isNull { return 0; }
    if byFour {
      if little {
        r := Crc32Little(t, crc, buf, address);
      } else {
        r := Crc32Big(t, crc, buf, address);
      }
    } else {
      r := Crc32Bytes(t, crc, buf);
    }
  }
}
