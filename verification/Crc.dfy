/**
  The CRC of section 8 of RFC 1952, bit by bit, and its linearity over GF(2): the specification
  of dep/zlib/crc32.c.
*/
module Crc {

  const POLY: bv32 := 0xedb88320

  function Xor(a: bv32, b: bv32): bv32 {
    a ^ b
  }

  function Low(c: bv32): bv32 {
    if c & 1 == 1 then POLY else 0
  }

  function Half(c: bv32): bv32 {
    c >> 1
  }

  /** One bit of the shift register. */
  function Bit(c: bv32): bv32 {
    Xor(Half(c), Low(c))
  }

  /** The register after n zero bits. */
  function Zeros(c: bv32, n: nat): bv32
    decreases n
  {
    if n == 0 then c else Zeros(Bit(c), n - 1)
  }

  /** The register after one byte. */
  function Feed(c: bv32, b: bv8): bv32 {
    Zeros(Xor(c, b as bv32), 8)
  }

  /** The register after a byte string. */
  function Register(c: bv32, s: seq<bv8>): bv32 {
    if s == [] then c else Feed(Register(c, s[..|s| - 1]), s[|s| - 1])
  }

  function Not(c: bv32): bv32 {
    Xor(c, 0xffffffff)
  }

  /** The CRC of a byte string that continues one with CRC `crc`. */
  function Crc32(crc: bv32, s: seq<bv8>): bv32 {
    Not(Register(Not(crc), s))
  }

  // ----- exclusive or -----

  lemma XorZero(a: bv32)
    ensures Xor(a, 0) == a && Xor(0, a) == a
  {
  }

  lemma WordAssoc(a: bv32, b: bv32, c: bv32)
    ensures (a ^ b) ^ c == a ^ (b ^ c)
  {
  }

  lemma XorAssoc(a: bv32, b: bv32, c: bv32)
    ensures Xor(Xor(a, b), c) == Xor(a, Xor(b, c))
  {
    WordAssoc(a, b, c);
  }

  lemma XorComm(a: bv32, b: bv32)
    ensures Xor(a, b) == Xor(b, a)
  {
  }

  lemma XorSwap(a: bv32, b: bv32, c: bv32, d: bv32)
    ensures Xor(Xor(a, b), Xor(c, d)) == Xor(Xor(a, c), Xor(b, d))
  {
    hide Xor;
    XorAssoc(a, b, Xor(c, d));
    XorAssoc(b, c, d);
    XorComm(b, c);
    XorAssoc(c, b, d);
    XorAssoc(a, c, Xor(b, d));
  }

  lemma NotNot(a: bv32)
    ensures Not(Not(a)) == a
  {
  }

  lemma WordHalf(a: bv32, b: bv32)
    ensures Half(a ^ b) == Half(a) ^ Half(b)
  {
  }

  lemma XorIs(a: bv32, b: bv32)
    ensures Xor(a, b) == a ^ b
  {
  }

  lemma HalfXor(a: bv32, b: bv32)
    ensures Half(Xor(a, b)) == Xor(Half(a), Half(b))
  {
    hide Half, Xor;
    WordHalf(a, b);
    XorIs(a, b);
    XorIs(Half(a), Half(b));
  }

  lemma LowXor(a: bv32, b: bv32)
    ensures Low(Xor(a, b)) == Xor(Low(a), Low(b))
  {
  }

  // ----- linearity -----

  lemma BitXor(a: bv32, b: bv32)
    ensures Bit(Xor(a, b)) == Xor(Bit(a), Bit(b))
  {
    hide Low, Half, Xor;
    HalfXor(a, b);
    LowXor(a, b);
    XorSwap(Half(a), Half(b), Low(a), Low(b));
  }

  lemma {:induction false} ZerosXor(a: bv32, b: bv32, n: nat)
    ensures Zeros(Xor(a, b), n) == Xor(Zeros(a, n), Zeros(b, n))
    decreases n
  {
    hide Xor, Bit;
    if n > 0 {
      BitXor(a, b);
      ZerosXor(Bit(a), Bit(b), n - 1);
    }
  }

  lemma {:induction false} ZerosAdd(c: bv32, m: nat, n: nat)
    ensures Zeros(Zeros(c, m), n) == Zeros(c, m + n)
    decreases m
  {
    hide Bit;
    if m > 0 { ZerosAdd(Bit(c), m - 1, n); }
  }

  lemma {:induction false} ZerosOfZero(n: nat)
    ensures Zeros(0, n) == 0
  {
    if n > 0 {
      assert Bit(0) == 0;
      ZerosOfZero(n - 1);
    }
  }

  lemma {:induction false} RegisterConcat(c: bv32, a: seq<bv8>, b: seq<bv8>)
    ensures Register(c, a + b) == Register(Register(c, a), b)
  {
    hide Feed;
    if b == [] {
      assert a + b == a;
    } else {
      RegisterConcat(c, a, b[..|b| - 1]);
      assert (a + b)[..|a + b| - 1] == a + b[..|b| - 1];
    }
  }

  /** A difference in the register passes through data as through zeros. */
  lemma {:induction false} RegisterXor(a: bv32, c: bv32, s: seq<bv8>)
    ensures Register(Xor(a, c), s) == Xor(Zeros(a, 8 * |s|), Register(c, s))
  {
    hide Xor, Bit, Zeros;
    if s == [] {
      NoZeros(a);
    } else {
      var t, b := s[..|s| - 1], s[|s| - 1] as bv32;
      RegisterXor(a, c, t);
      XorAssoc(Zeros(a, 8 * |t|), Register(c, t), b);
      ZerosXor(Zeros(a, 8 * |t|), Xor(Register(c, t), b), 8);
      ZerosAdd(a, 8 * |t|, 8);
      assert 8 * |t| + 8 == 8 * |s|;
    }
  }

  lemma NoZeros(c: bv32)
    ensures Zeros(c, 0) == c
  {
  }

  /** The CRC of a concatenation, from the CRCs of its parts and the length of the second. */
  lemma CrcConcat(a: seq<bv8>, b: seq<bv8>)
    ensures Crc32(0, a + b) == Xor(Zeros(Crc32(0, a), 8 * |b|), Crc32(0, b))
  {
    hide Xor, Zeros, Register;
    var f := Not(0);
    var r := Register(f, a);
    RegisterConcat(f, a, b);
    NotNot(r);
    FlipFlop(r, f);
    RegisterXor(Not(r), f, b);
    XorAssoc(Zeros(Not(r), 8 * |b|), Register(f, b), 0xffffffff);
  }

  lemma FlipFlop(r: bv32, f: bv32)
    requires f == Not(0)
    ensures Xor(Not(r), f) == r
  {
  }

  // ----- the size of a word -----

  /** The largest word of k bits. */
  function Top(k: nat): bv32
    decreases 32 - k
  {
    if k >= 32 then 0xffffffff else Half(Top(k + 1))
  }

  lemma TopZero()
    ensures Top(0) == 0
  {
    assert Top(31) == 0x7fffffff;
    assert Top(30) == 0x3fffffff;
    assert Top(29) == 0x1fffffff;
    assert Top(28) == 0x0fffffff;
    assert Top(27) == 0x07ffffff;
    assert Top(26) == 0x03ffffff;
    assert Top(25) == 0x01ffffff;
    assert Top(24) == 0x00ffffff;
    assert Top(23) == 0x007fffff;
    assert Top(22) == 0x003fffff;
    assert Top(21) == 0x001fffff;
    assert Top(20) == 0x000fffff;
    assert Top(19) == 0x0007ffff;
    assert Top(18) == 0x0003ffff;
    assert Top(17) == 0x0001ffff;
    assert Top(16) == 0x0000ffff;
    assert Top(15) == 0x00007fff;
    assert Top(14) == 0x00003fff;
    assert Top(13) == 0x00001fff;
    assert Top(12) == 0x00000fff;
    assert Top(11) == 0x000007ff;
    assert Top(10) == 0x000003ff;
    assert Top(9) == 0x000001ff;
    assert Top(8) == 0x000000ff;
    assert Top(7) == 0x0000007f;
    assert Top(6) == 0x0000003f;
    assert Top(5) == 0x0000001f;
    assert Top(4) == 0x0000000f;
    assert Top(3) == 0x00000007;
    assert Top(2) == 0x00000003;
    assert Top(1) == 0x00000001;
  }

  /** v has at most k bits. */
  ghost predicate Fits(v: bv32, k: nat) {
    v <= Top(k)
  }

  lemma HalfMonotone(a: bv32, b: bv32)
    requires a <= b
    ensures Half(a) <= Half(b)
  {
  }

  lemma TopHalf(v: bv32, k: nat)
    requires 0 < k <= 32 && Fits(v, k)
    ensures Fits(Half(v), k - 1)
  {
    hide Half;
    HalfMonotone(v, Top(k));
  }

  lemma AllFits(v: bv32)
    ensures Fits(v, 32)
  {
  }

  lemma NothingLeft(v: bv32, k: nat)
    requires Fits(v, k)
    ensures k == 0 ==> v == 0
  {
    TopZero();
  }

  // ----- shifting up -----

  function Up(x: bv32, j: nat): bv32
    decreases j
  {
    if j == 0 then x else Up(Double(x), j - 1)
  }

  lemma {:induction false} UpNext(x: bv32, j: nat)
    ensures Double(Up(x, j)) == Up(x, j + 1)
    decreases j
  {
    if j > 0 { UpNext(Double(x), j - 1); }
  }

  lemma UpNone(x: bv32)
    ensures Up(x, 0) == x
  {
  }

  function Double(x: bv32): bv32 {
    x << 1
  }

  lemma WordDouble(a: bv32, b: bv32)
    ensures Double(a ^ b) == Double(a) ^ Double(b)
  {
  }

  lemma DoubleXor(a: bv32, b: bv32)
    ensures Double(Xor(a, b)) == Xor(Double(a), Double(b))
  {
    hide Double, Xor;
    WordDouble(a, b);
    XorIs(a, b);
    XorIs(Double(a), Double(b));
  }

  lemma {:induction false} UpXor(a: bv32, b: bv32, j: nat)
    ensures Up(Xor(a, b), j) == Xor(Up(a, j), Up(b, j))
    decreases j
  {
    hide Xor, Double;
    if j > 0 {
      DoubleXor(a, b);
      UpXor(Double(a), Double(b), j - 1);
    }
  }

  lemma UpDouble(x: bv32, j: nat)
    ensures Up(x, j + 1) == Up(Double(x), j)
  {
  }

  lemma {:induction false} UpZero(j: nat)
    ensures Up(0, j) == 0
    decreases j
  {
    if j > 0 {
      assert Double(0) == 0;
      UpZero(j - 1);
    }
  }

  lemma DoubleFits(y: bv32, k: nat)
    requires Fits(y, k) && k < 32
    ensures Fits(Double(y), k + 1)
  {
    hide Half, Double;
    DoubleBelow(y, Top(k + 1));
  }

  lemma DoubleBelow(y: bv32, t: bv32)
    requires y <= Half(t)
    ensures Double(y) <= t
  {
  }

  lemma {:induction false} FitsMore(y: bv32, k: nat, m: nat)
    requires Fits(y, k) && k <= m <= 32
    ensures Fits(y, m)
    decreases m
  {
    if k < m {
      FitsMore(y, k, m - 1);
      HalfBelow(Top(m));
    }
  }

  lemma HalfBelow(t: bv32)
    ensures Half(t) <= t
  {
  }

  lemma BitOfEven(z: bv32)
    requires z <= 0x7fffffff
    ensures Bit(Double(z)) == z
  {
  }

  lemma BitOfDouble(z: bv32)
    requires Fits(z, 31)
    ensures Bit(Double(z)) == z
  {
    hide Bit, Double;
    assert Top(31) == 0x7fffffff;
    BitOfEven(z);
  }

  /** Zero bits push out what a shift up has left empty. */
  lemma {:induction false} ZerosUp(y: bv32, j: nat)
    requires j <= 31 && Fits(y, 32 - j)
    ensures Zeros(Up(y, j), j) == y
    decreases j
  {
    hide Bit, Double, Fits;
    if j > 0 {
      DoubleFits(y, 32 - j);
      ZerosUp(Double(y), j - 1);
      ZerosAdd(Up(y, j), j - 1, 1);
      FitsMore(y, 32 - j, 31);
      BitOfDouble(y);
      assert Zeros(Double(y), 1) == Zeros(Bit(Double(y)), 0);
    }
  }

  /** A CRC may be computed in pieces. */
  lemma CrcContinues(crc: bv32, a: seq<bv8>, b: seq<bv8>)
    ensures Crc32(Crc32(crc, a), b) == Crc32(crc, a + b)
  {
    hide Xor, Register;
    RegisterConcat(Not(crc), a, b);
    NotNot(Register(Not(crc), a));
  }
}
