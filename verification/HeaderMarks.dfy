/**
  What the decoder takes for the start of a stream, of a block, and for the end
  (dep/bzip2/decompress.c, lines 199-243 and 574-583), in plain numbers: any other bits are
  refused.
*/
module HeaderMarks {
  import opened BitIO
  import opened Decompress
  import opened BlockFormat

  /** The k-th byte of a field, first one on top. */
  function ByteOf(w: Bits, k: nat): (v: nat)
    requires 8 * k + 8 <= |w|
    ensures v < 256
  {
    Pow2Eight();
    ValueOf(w[8 * k..8 * k + 8])
  }

  /** Reading one byte of a field. */
  lemma ReadByte(at: Label, s: Saved, w: Bits, k: nat, rest: Bits)
    requires Need(at) == 8 && 8 * k + 8 <= |w|
    ensures Run(Running(at, s), w[8 * k..] + rest) == Run(Step(at, s, ByteOf(w, k)), w[8 * k + 8..] + rest)
  {
    hide Run, Step, ValueOf;
    RunBits(at, s, w[8 * k..8 * k + 8], w[8 * k + 8..] + rest);
    assert w[8 * k..] + rest == w[8 * k..8 * k + 8] + (w[8 * k + 8..] + rest);
  }

  /** The number made of a field's bytes so far. */
  lemma ValueNext(w: Bits, k: nat)
    requires 8 * k + 8 <= |w|
    ensures ValueOf(w[..8 * k + 8]) == ValueOf(w[..8 * k]) * 256 + ByteOf(w, k)
  {
    hide ValueOf;
    NextByte(w, k);
  }

  lemma FourBytes(w: Bits)
    requires |w| >= 32
    ensures ValueOf(w[..32]) == ((ByteOf(w, 0) * 256 + ByteOf(w, 1)) * 256 + ByteOf(w, 2)) * 256 + ByteOf(w, 3)
  {
    hide ValueOf, ByteOf;
    EmptyValue(w);
    ValueNext(w, 0);
    ValueNext(w, 1);
    ValueNext(w, 2);
    ValueNext(w, 3);
  }

  lemma SixBytes(w: Bits)
    requires |w| == 48
    ensures ValueOf(w) == (ValueOf(w[..32]) * 256 + ByteOf(w, 4)) * 256 + ByteOf(w, 5)
  {
    hide ValueOf, ByteOf;
    ValueNext(w, 4);
    ValueNext(w, 5);
    assert w[..48] == w;
  }

  /** Once refused, whatever follows. */
  lemma Refused(code: int, rest: Bits)
    ensures Run(Failed(code), rest).0 == Failed(code)
  {
  }

  lemma MagicStep(s: Saved, k: nat, v: nat)
    requires 1 <= k <= 4
    ensures Step(Magic(k), s, v) ==
            if k == 4 then (if 0x31 <= v <= 0x39 then Running(BlkHdr(1), s.(blockSize100k := v - 0x30)) else Failed(-5))
            else if v == (if k == 1 then 0x42 else if k == 2 then 0x5a else 0x68) then Running(Magic(k + 1), s)
            else Failed(-5)
  {
  }

  /**
    A stream begins with the 32 bits of one of nine numbers, which give the block size; on any
    other 32 bits the decoder answers that these are not bzip2 data.
  */
  lemma StreamMark(s: Saved, w: Bits, rest: Bits)
    requires |w| == 32
    ensures var v := ValueOf(w);
            if 0x425a6831 <= v <= 0x425a6839
            then Run(Running(Magic(1), s), w + rest) == Run(Running(BlkHdr(1), s.(blockSize100k := v - 0x425a6830)), rest)
            else Run(Running(Magic(1), s), w + rest).0 == Failed(-5)
  {
    hide Run, Step, ValueOf, ByteOf;
    FourBytes(w);
    assert w[..32] == w && w[8 * 0..] == w && w[32..] + rest == rest;
    MagicFrom(s, w, 1, rest);
    Digits(ByteOf(w, 0), ByteOf(w, 1), ByteOf(w, 2), ByteOf(w, 3));
  }

  /** The bytes still to come are right. */
  predicate MagicRight(w: Bits, k: nat)
    requires |w| == 32
    decreases 5 - k
  {
    if k == 0 || k > 4 then true
    else if k == 4 then 0x31 <= ByteOf(w, 3) <= 0x39
    else ByteOf(w, k - 1) == (if k == 1 then 0x42 else if k == 2 then 0x5a else 0x68) && MagicRight(w, k + 1)
  }

  lemma {:induction false} MagicFrom(s: Saved, w: Bits, k: nat, rest: Bits)
    requires |w| == 32 && 1 <= k <= 4
    ensures if MagicRight(w, k)
            then Run(Running(Magic(k), s), w[8 * (k - 1)..] + rest)
                 == Run(Running(BlkHdr(1), s.(blockSize100k := ByteOf(w, 3) - 0x30)), w[32..] + rest)
            else Run(Running(Magic(k), s), w[8 * (k - 1)..] + rest).0 == Failed(-5)
    decreases 5 - k
  {
    hide Run, Step, ValueOf, ByteOf;
    ReadByte(Magic(k), s, w, k - 1, rest);
    MagicStep(s, k, ByteOf(w, k - 1));
    Refused(-5, w[8 * (k - 1) + 8..] + rest);
    if k < 4 { MagicFrom(s, w, k + 1, rest); }
  }

  lemma Digits(a: nat, b: nat, c: nat, d: nat)
    requires a < 256 && b < 256 && c < 256 && d < 256
    ensures var v := ((a * 256 + b) * 256 + c) * 256 + d;
            0x425a6831 <= v <= 0x425a6839 <==> a == 0x42 && b == 0x5a && c == 0x68 && 0x31 <= d <= 0x39
    ensures a == 0x42 && b == 0x5a && c == 0x68 ==> ((a * 256 + b) * 256 + c) * 256 + d == 0x425a6800 + d
  {
  }

  // ----- blocks -----

  /** The six bytes of a mark, from the k-th on. */
  predicate Spelt(w: Bits, mark: seq<int>, k: nat)
    requires |w| == 48 && |mark| == 6
    decreases 7 - k
  {
    0 < k <= 6 ==> ByteOf(w, k - 1) == mark[k - 1] && Spelt(w, mark, k + 1)
  }

  const BLOCK_MARK: seq<int> := [0x31, 0x41, 0x59, 0x26, 0x53, 0x59]
  const END_MARK: seq<int> := [0x17, 0x72, 0x45, 0x38, 0x50, 0x90]

  lemma BlockStep(s: Saved, k: nat, v: nat)
    requires 1 <= k <= 6
    ensures Step(BlkHdr(k), s, v) ==
            if v == BLOCK_MARK[k - 1] then (if k < 6 then Running(BlkHdr(k + 1), s) else Running(BCrc(1), s.(storedCRC := 0)))
            else if k == 1 && v == 0x17 then Running(EndHdr(2), s)
            else Failed(-4)
  {
  }

  lemma EndStep(s: Saved, k: nat, v: nat)
    requires 2 <= k <= 6
    ensures Step(EndHdr(k), s, v) ==
            if v == END_MARK[k - 1] then (if k < 6 then Running(EndHdr(k + 1), s) else Running(CCrc(1), s.(storedCRC := 0)))
            else Failed(-4)
  {
  }

  lemma {:induction false} EndFrom(s: Saved, w: Bits, k: nat, rest: Bits)
    requires |w| == 48 && 2 <= k <= 6
    ensures if Spelt(w, END_MARK, k)
            then Run(Running(EndHdr(k), s), w[8 * (k - 1)..] + rest) == Run(Running(CCrc(1), s.(storedCRC := 0)), w[48..] + rest)
            else Run(Running(EndHdr(k), s), w[8 * (k - 1)..] + rest).0 == Failed(-4)
    decreases 7 - k
  {
    hide Run, Step, ValueOf, ByteOf;
    ReadByte(EndHdr(k), s, w, k - 1, rest);
    EndStep(s, k, ByteOf(w, k - 1));
    Refused(-4, w[8 * (k - 1) + 8..] + rest);
    if k < 6 { EndFrom(s, w, k + 1, rest); }
    assert Spelt(w, END_MARK, 7);
  }

  lemma {:induction false} BlockFrom(s: Saved, w: Bits, k: nat, rest: Bits)
    requires |w| == 48 && 2 <= k <= 6
    ensures if Spelt(w, BLOCK_MARK, k)
            then Run(Running(BlkHdr(k), s), w[8 * (k - 1)..] + rest) == Run(Running(BCrc(1), s.(storedCRC := 0)), w[48..] + rest)
            else Run(Running(BlkHdr(k), s), w[8 * (k - 1)..] + rest).0 == Failed(-4)
    decreases 7 - k
  {
    hide Run, Step, ValueOf, ByteOf;
    ReadByte(BlkHdr(k), s, w, k - 1, rest);
    BlockStep(s, k, ByteOf(w, k - 1));
    Refused(-4, w[8 * (k - 1) + 8..] + rest);
    if k < 6 { BlockFrom(s, w, k + 1, rest); }
    assert Spelt(w, BLOCK_MARK, 7);
  }

  lemma SixDigits(w: Bits, mark: seq<int>, v: nat)
    requires |w| == 48 && |mark| == 6 && forall i :: 0 <= i < 6 ==> 0 <= mark[i] < 256
    requires v == ((((mark[0] * 256 + mark[1]) * 256 + mark[2]) * 256 + mark[3]) * 256 + mark[4]) * 256 + mark[5]
    ensures ValueOf(w) == v <==> Spelt(w, mark, 1)
  {
    hide ValueOf, ByteOf;
    FourBytes(w);
    SixBytes(w);
    assert Spelt(w, mark, 7);
    assert Spelt(w, mark, 6) <==> ByteOf(w, 5) == mark[5];
    assert Spelt(w, mark, 5) <==> ByteOf(w, 4) == mark[4] && Spelt(w, mark, 6);
    assert Spelt(w, mark, 4) <==> ByteOf(w, 3) == mark[3] && Spelt(w, mark, 5);
    assert Spelt(w, mark, 3) <==> ByteOf(w, 2) == mark[2] && Spelt(w, mark, 4);
    assert Spelt(w, mark, 2) <==> ByteOf(w, 1) == mark[1] && Spelt(w, mark, 3);
  }

  /**
    Behind the header and behind every block there are 48 bits: the digits of pi, and another
    block follows; those of its square root, and the stream ends; on any others the decoder
    reports corrupt data.
  */
  lemma BlockMark(s: Saved, w: Bits, rest: Bits)
    requires |w| == 48
    ensures var v, r := ValueOf(w), Run(Running(BlkHdr(1), s), w + rest);
            if v == 0x314159265359 then r == Run(Running(BCrc(1), s.(storedCRC := 0)), rest)
            else if v == 0x177245385090 then r == Run(Running(CCrc(1), s.(storedCRC := 0)), rest)
            else r.0 == Failed(-4)
  {
    hide Run, Step, ValueOf, ByteOf, Spelt;
    SixDigits(w, BLOCK_MARK, 0x314159265359);
    SixDigits(w, END_MARK, 0x177245385090);
    SpeltFirst(w);
    assert w[8 * 0..] == w && w[48..] + rest == rest;
    ReadByte(BlkHdr(1), s, w, 0, rest);
    BlockStep(s, 1, ByteOf(w, 0));
    Refused(-4, w[8..] + rest);
    BlockFrom(s, w, 2, rest);
    EndFrom(s, w, 2, rest);
  }

  lemma SpeltFirst(w: Bits)
    requires |w| == 48
    ensures Spelt(w, BLOCK_MARK, 1) <==> ByteOf(w, 0) == 0x31 && Spelt(w, BLOCK_MARK, 2)
    ensures Spelt(w, END_MARK, 1) <==> ByteOf(w, 0) == 0x17 && Spelt(w, END_MARK, 2)
  {
  }
}
