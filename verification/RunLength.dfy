/**
  The run-length front end of dep/bzip2/bzlib.c: what a block denotes, the encoder that folds
  input bytes into it (add_pair_to_block, flush_RL, ADD_CHAR_TO_BLOCK: lines 216-284), and the
  block's CRC (dep/bzip2/bzlib_private.h, lines 157-172).
*/
module RunLength {
  import opened Common

  // ----- the block CRC -----

  type Crc = bv32

  const CRC_POLY: bv32 := 0x04c11db7

  /** One bit of the table generator behind BZ2_crc32Table. */
  function CrcBit(c: bv32): bv32 {
    if c & 0x80000000 != 0 then (c << 1) ^ CRC_POLY else c << 1
  }

  /** An entry of BZ2_crc32Table. */
  function CrcTable(i: bv32): bv32 {
    CrcBit(CrcBit(CrcBit(CrcBit(CrcBit(CrcBit(CrcBit(CrcBit(i << 24))))))))
  }

  /** BZ_UPDATE_CRC. */
  function UpdateCrc(crc: Crc, c: Byte): Crc {
    UpdateWord(crc, c as bv32)
  }

  function UpdateWord(crc: Crc, b: bv32): Crc {
    (crc << 8) ^ CrcTable(TableIndex(crc, b))
  }

  function TableIndex(crc: Crc, b: bv32): bv32 {
    (crc >> 24) ^ b
  }

  function CrcFrom(crc: Crc, s: seq<Byte>): Crc {
    if s == [] then crc else UpdateCrc(CrcFrom(crc, s[..|s| - 1]), s[|s| - 1])
  }

  /** The register over a byte string, before BZ_FINALISE_CRC. */
  function CrcOf(s: seq<Byte>): Crc {
    CrcFrom(0xffffffff, s)
  }

  /** BZ_FINALISE_CRC. */
  function FinalCrc(crc: Crc): Crc {
    crc ^ 0xffffffff
  }

  /** The combined CRC of the stream, after one more block. */
  function CombineCrc(combined: Crc, blockCRC: Crc): Crc {
    ((combined << 1) | (combined >> 31)) ^ blockCRC
  }

  function CrcValue(crc: Crc): (r: nat)
    ensures r < 0x1_0000_0000
  {
    crc as int
  }

  lemma {:induction false} CrcConcat(crc: Crc, a: seq<Byte>, b: seq<Byte>)
    ensures CrcFrom(crc, a + b) == CrcFrom(CrcFrom(crc, a), b)
  {
    hide UpdateCrc;
    if b == [] {
      assert a + b == a;
    } else {
      CrcConcat(crc, a, b[..|b| - 1]);
      assert (a + b)[..|a + b| - 1] == a + b[..|b| - 1];
    }
  }

  // ----- what a block denotes -----

  function Copies(c: Byte, n: nat): (r: seq<Byte>)
    ensures |r| == n && forall i :: 0 <= i < n ==> r[i] == c
  {
    seq(n, _ => c)
  }

  /** Reading a block: the bytes it stands for, and the run being read; after four equal bytes comes a count. */
  datatype Reading = Reading(out: seq<Byte>, ch: int, k: nat)

  function Read1(d: Reading, c: Byte): Reading {
    if d.k == 4 then Reading(d.out + (if 0 <= d.ch < 256 then Copies(d.ch, c) else []), d.ch, 0)
    else if d.k > 0 && c == d.ch then Reading(d.out + [c], d.ch, d.k + 1)
    else Reading(d.out + [c], c, 1)
  }

  function ReadAll(b: seq<Byte>): Reading {
    if b == [] then Reading([], 256, 0) else Read1(ReadAll(b[..|b| - 1]), b[|b| - 1])
  }

  /** The bytes a block stands for. */
  function RunDecode(b: seq<Byte>): seq<Byte> {
    ReadAll(b).out
  }

  /** No run is left without its count. */
  predicate Complete(b: seq<Byte>) {
    ReadAll(b).k != 4
  }

  /** How the encoder writes a run. */
  function PairBytes(ch: Byte, len: nat): seq<Byte>
    requires 1 <= len <= 255
  {
    if len <= 3 then Copies(ch, len) else Copies(ch, 4) + [len - 4]
  }

  /** The run can be told from what stands before it. */
  predicate Separate(d: Reading, ch: int) {
    d.k == 0 || (d.k < 4 && d.ch != ch)
  }

  lemma ReadNext(b: seq<Byte>, c: Byte)
    ensures ReadAll(b + [c]) == Read1(ReadAll(b), c)
  {
    assert (b + [c])[..|b + [c]| - 1] == b;
  }

  lemma {:induction false} ReadCopies(b: seq<Byte>, ch: Byte, n: nat)
    requires Separate(ReadAll(b), ch) && 1 <= n <= 4
    ensures ReadAll(b + Copies(ch, n)) == Reading(RunDecode(b) + Copies(ch, n), ch, n)
    decreases n
  {
    var m := n - 1;
    if m == 0 {
      ReadNext(b, ch);
      assert Copies(ch, 1) == [ch];
    } else {
      ReadCopies(b, ch, m);
      ReadNext(b + Copies(ch, m), ch);
      assert b + Copies(ch, n) == (b + Copies(ch, m)) + [ch];
      assert RunDecode(b) + Copies(ch, n) == (RunDecode(b) + Copies(ch, m)) + [ch];
    }
  }

  /** Writing a run appends exactly that run to what the block denotes. */
  lemma ReadPair(b: seq<Byte>, ch: Byte, len: nat)
    requires Separate(ReadAll(b), ch) && 1 <= len <= 255
    ensures var b' := b + PairBytes(ch, len);
            && RunDecode(b') == RunDecode(b) + Copies(ch, len)
            && Complete(b')
            && forall c: int :: (c != ch || len == 255) ==> Separate(ReadAll(b'), c)
  {
    if len <= 3 {
      ReadCopies(b, ch, len);
    } else {
      ReadCopies(b, ch, 4);
      ReadNext(b + Copies(ch, 4), len - 4);
      assert b + PairBytes(ch, len) == (b + Copies(ch, 4)) + [len - 4];
      assert RunDecode(b) + Copies(ch, len) == (RunDecode(b) + Copies(ch, 4)) + Copies(ch, len - 4);
    }
  }

  /** No four bytes in a row are equal. */
  predicate NoFour(b: seq<Byte>) {
    forall i :: 0 <= i && i + 3 < |b| ==> !(b[i] == b[i + 1] == b[i + 2] == b[i + 3])
  }

  /** Where the run being read began. */
  lemma {:induction false} RunBack(b: seq<Byte>)
    requires NoFour(b)
    ensures var d := ReadAll(b);
            d.out == b && d.k <= 3 && (d.k == 0 <==> b == [])
            && d.k <= |b| && forall i :: |b| - d.k <= i < |b| ==> b[i] == d.ch
  {
    hide NoFour;
    if b != [] {
      var a := b[..|b| - 1];
      NoFourPrefix(b);
      RunBack(a);
      if ReadAll(a).k == 3 {
        assert b[|b| - 4] == a[|a| - 3] && b[|b| - 3] == a[|a| - 2] && b[|b| - 2] == a[|a| - 1];
        NoFourEnd(b);
      }
    }
  }

  lemma NoFourPrefix(b: seq<Byte>)
    requires NoFour(b) && b != []
    ensures NoFour(b[..|b| - 1])
  {
    var a := b[..|b| - 1];
    forall i | 0 <= i && i + 3 < |a| ensures !(a[i] == a[i + 1] == a[i + 2] == a[i + 3]) {
      assert !(b[i] == b[i + 1] == b[i + 2] == b[i + 3]);
    }
  }

  lemma NoFourEnd(b: seq<Byte>)
    requires NoFour(b) && |b| >= 4 && b[|b| - 4] == b[|b| - 3] == b[|b| - 2]
    ensures b[|b| - 1] != b[|b| - 2]
  {
    var i := |b| - 4;
    assert !(b[i] == b[i + 1] == b[i + 2] == b[i + 3]);
  }

  /** A block without four equal bytes in a row stands for itself. */
  lemma PlainBlock(b: seq<Byte>)
    requires NoFour(b)
    ensures RunDecode(b) == b && Complete(b)
  {
    RunBack(b);
  }

  /** Four equal bytes and a count, behind a block that is no part of the run, stand for four bytes and as many more. */
  lemma CountedRun(b: seq<Byte>, c: Byte, n: Byte)
    requires NoFour(b) && (b != [] ==> b[|b| - 1] != c)
    ensures RunDecode(b + [c, c, c, c, n]) == b + Copies(c, 4 + n) && Complete(b + [c, c, c, c, n])
  {
    hide RunDecode;
    RunBack(b);
    PlainBlock(b);
    ReadCopies(b, c, 4);
    ReadNext(b + Copies(c, 4), n);
    assert b + [c, c, c, c, n] == (b + Copies(c, 4)) + [n];
    assert b + Copies(c, 4 + n) == (b + Copies(c, 4)) + Copies(c, n);
    DecodeIs(b + [c, c, c, c, n]);
    DecodeIs(b + Copies(c, 4));
  }

  lemma DecodeIs(b: seq<Byte>)
    ensures RunDecode(b) == ReadAll(b).out
  {
  }

  // ----- what the encoder writes -----

  function RunFrom(s: seq<Byte>, n: nat): (r: nat)
    requires 1 <= n <= 255 && n <= |s| && forall i :: 0 <= i < n ==> s[i] == s[0]
    ensures 1 <= r <= 255 && r <= |s| && (forall i :: 0 <= i < r ==> s[i] == s[0])
    ensures r < |s| && r < 255 ==> s[r] != s[0]
    decreases |s| - n
  {
    if n < |s| && n < 255 && s[n] == s[0] then RunFrom(s, n + 1) else n
  }

  /** How many equal bytes s starts with; of more than 255, these. */
  function FirstRun(s: seq<Byte>): (r: nat)
    requires s != []
    ensures 1 <= r <= 255 && r <= |s| && (forall i :: 0 <= i < r ==> s[i] == s[0])
    ensures r < |s| && r < 255 ==> s[r] != s[0]
  {
    RunFrom(s, 1)
  }

  /** The block of some data: its runs, as long as they can be, one after the other. */
  function RunEncode(s: seq<Byte>): seq<Byte>
    decreases |s|
  {
    if s == [] then [] else PairBytes(s[0], FirstRun(s)) + RunEncode(s[FirstRun(s)..])
  }

  /** A run of ch behind s is a run of its own. */
  predicate Closed(s: seq<Byte>, ch: int)
    decreases |s|
  {
    s != [] ==> var n := FirstRun(s); if n == |s| then s[0] != ch || n == 255 else Closed(s[n..], ch)
  }

  /** Behind what is closed against it, a run is written by itself. */
  lemma {:induction false} EncodeAppend(s: seq<Byte>, ch: Byte, len: nat)
    requires Closed(s, ch) && 1 <= len <= 255
    ensures RunEncode(s + Copies(ch, len)) == RunEncode(s) + PairBytes(ch, len)
    decreases |s|
  {
    hide PairBytes, FirstRun;
    var t := s + Copies(ch, len);
    FirstAppended(s, ch, len);
    if s != [] {
      EncodeAppend(s[FirstRun(s)..], ch, len);
      assert RunEncode(t) == PairBytes(s[0], FirstRun(s)) + (RunEncode(s[FirstRun(s)..]) + PairBytes(ch, len));
    }
  }

  /** The run of ch in turn is closed against other bytes, and full ones against all. */
  lemma {:induction false} ClosedAppend(s: seq<Byte>, ch: Byte, len: nat, c: int)
    requires Closed(s, ch) && 1 <= len <= 255 && (c != ch || len == 255)
    ensures Closed(s + Copies(ch, len), c)
    decreases |s|
  {
    hide FirstRun;
    FirstAppended(s, ch, len);
    if s != [] { ClosedAppend(s[FirstRun(s)..], ch, len, c); }
  }

  lemma FirstAppended(s: seq<Byte>, ch: Byte, len: nat)
    requires Closed(s, ch) && 1 <= len <= 255
    ensures var t := s + Copies(ch, len);
            && (s == [] ==> t != [] && t[0] == ch && FirstRun(t) == len && t[len..] == [])
            && (s != [] ==> t[0] == s[0] && FirstRun(t) == FirstRun(s) && Closed(s[FirstRun(s)..], ch)
                            && t[FirstRun(s)..] == s[FirstRun(s)..] + Copies(ch, len))
  {
    hide FirstRun;
    var t := s + Copies(ch, len);
    if s == [] { FirstRunIs(t, len); } else { FirstRunIs(t, FirstRun(s)); }
  }

  lemma FirstRunIs(s: seq<Byte>, n: nat)
    requires 1 <= n <= 255 && n <= |s| && (forall i :: 0 <= i < n ==> s[i] == s[0])
    requires n < |s| && n < 255 ==> s[n] != s[0]
    ensures FirstRun(s) == n
  {
    hide FirstRun;
  }

  /** What is written denotes the data. */
  lemma {:induction false} EncodeDecodes(b: seq<Byte>, s: seq<Byte>)
    requires Complete(b) && (s != [] ==> Separate(ReadAll(b), s[0]))
    ensures RunDecode(b + RunEncode(s)) == RunDecode(b) + s && Complete(b + RunEncode(s))
    decreases |s|
  {
    hide PairBytes, ReadAll, FirstRun, Complete, Separate, RunDecode;
    if s == [] {
      assert b + RunEncode(s) == b;
    } else {
      var n := FirstRun(s);
      var b' := b + PairBytes(s[0], n);
      ReadPair(b, s[0], n);
      EncodeDecodes(b', s[n..]);
      assert b' + RunEncode(s[n..]) == b + RunEncode(s);
      assert Copies(s[0], n) == s[..n] && s == s[..n] + s[n..];
      assert RunDecode(b) + s == (RunDecode(b) + Copies(s[0], n)) + s[n..];
    }
  }

  lemma RunRoundTrip(s: seq<Byte>)
    ensures RunDecode(RunEncode(s)) == s && Complete(RunEncode(s))
  {
    assert ReadAll([]) == Reading([], 256, 0);
    EncodeDecodes([], s);
    assert [] + RunEncode(s) == RunEncode(s) && [] + s == s;
  }

  // ----- the encoder -----

  /** The bytes marked are exactly those that occur. */
  ghost predicate MarksExactly(u: seq<bool>, b: seq<Byte>) {
    |u| == 256 && forall c: Byte :: u[c] <==> c in b
  }

  lemma MarkByte(u: seq<bool>, b: seq<Byte>, c: Byte, n: nat)
    requires MarksExactly(u, b) && n > 0
    ensures MarksExactly(u[c := true], b + Copies(c, n))
  {
    var u', b' := u[c := true], b + Copies(c, n);
    forall x: Byte ensures u'[x] <==> x in b' {
      if x == c { assert b'[|b|] == c; }
    }
  }

  lemma MarkCount(u: seq<bool>, b: seq<Byte>, c: Byte, m: Byte)
    requires MarksExactly(u, b)
    ensures MarksExactly(u[m := true][c := true], b + (Copies(c, 4) + [m]))
  {
    MarkByte(u, b, c, 4);
    MarkByte(u[c := true], b + Copies(c, 4), m, 1);
    assert u[m := true][c := true] == u[c := true][m := true];
    assert b + (Copies(c, 4) + [m]) == (b + Copies(c, 4)) + Copies(m, 1);
  }

  lemma EmptyBlock(ch: int)
    ensures RunDecode([]) == [] && RunEncode([]) == [] && Complete([]) && Separate(ReadAll([]), ch) && Closed([], ch)
    ensures CrcOf([]) == 0xffffffff
  {
  }

  lemma NoneMarked(u: seq<bool>)
    requires |u| == 256 && forall c :: 0 <= c < 256 ==> !u[c]
    ensures MarksExactly(u, [])
  {
  }

  /** The input half of EState: block, nblock, inUse, blockCRC and the pending run. */
  class BlockBuffer {
    const size: nat
    const block: array<Byte>
    const inUse: array<bool>
    var nblock: int
    var blockCRC: Crc
    var state_in_ch: int
    var state_in_len: int

    /** What the block denotes. */
    ghost function Data(): seq<Byte>
      reads this, block
      requires 0 <= nblock <= block.Length
    {
      RunDecode(block[..nblock])
    }

    /** The run not yet in the block. */
    ghost function Pending(): seq<Byte>
      reads this
    {
      if 0 <= state_in_ch < 256 && state_in_len >= 0 then Copies(state_in_ch, state_in_len) else []
    }

    ghost predicate Valid()
      reads this, block, inUse
    {
      && block.Length == size && inUse.Length == 256 && 0 <= nblock <= size
      && (if state_in_ch == 256 then state_in_len == 0 else 0 <= state_in_ch < 256 && 1 <= state_in_len <= 255)
      && MarksExactly(inUse[..], block[..nblock])
      && Complete(block[..nblock]) && (state_in_ch < 256 ==> Separate(ReadAll(block[..nblock]), state_in_ch))
      && block[..nblock] == RunEncode(RunDecode(block[..nblock])) && (state_in_ch < 256 ==> Closed(RunDecode(block[..nblock]), state_in_ch))
      && blockCRC == CrcOf(RunDecode(block[..nblock]))
    }

    constructor (size: nat)
      ensures Valid() && this.size == size && nblock == 0 && Pending() == [] && fresh(block) && fresh(inUse)
    {
      this.size := size;
      block := new Byte[size];
      inUse := new bool[256](_ => false);
      nblock := 0;
      blockCRC := 0xffffffff;
      state_in_ch := 256;
      state_in_len := 0;
    }

    /** The block part of prepare_new_block. */
    method Clear()
      requires Valid()
      modifies this, inUse
      ensures Valid() && nblock == 0 && Data() == [] && Pending() == old(Pending())
    {
      hide ReadAll, RunDecode, RunEncode, Closed, Complete, Separate, CrcOf, MarksExactly;
      EmptyBlock(state_in_ch);
      nblock := 0;
      blockCRC := 0xffffffff;
      assert block[..nblock] == [];
      for i := 0 to 256
        invariant forall k :: 0 <= k < i ==> !inUse[k]
        modifies inUse
      {
        inUse[i] := false;
      }
      NoneMarked(inUse[..]);
    }

    /** Everything folded so far, the pending run included. */
    ghost function Folded(): seq<Byte>
      reads this, block
      requires 0 <= nblock <= block.Length
    {
      Data() + Pending()
    }

    /** What holds of the block between writing a run and starting the next. */
    ghost predicate Written(before: seq<Byte>, ch: int, len: int)
      reads this, block, inUse
    {
      && block.Length == size && inUse.Length == 256 && 0 <= nblock <= size
      && MarksExactly(inUse[..], block[..nblock]) && Complete(block[..nblock])
      && RunDecode(block[..nblock]) == before
      && (forall c: int :: (c != ch || len == 255) ==> Separate(ReadAll(block[..nblock]), c))
      && block[..nblock] == RunEncode(before) && (forall c: int :: (c != ch || len == 255) ==> Closed(before, c))
      && blockCRC == CrcOf(before)
    }

    method Put(c: Byte)
      requires 0 <= nblock < block.Length
      modifies this`nblock, block
      ensures nblock == old(nblock) + 1 && block[..nblock] == old(block[..nblock]) + [c]
    {
      block[nblock] := c;
      nblock := nblock + 1;
    }

    /** The CRC loop of add_pair_to_block. */
    method UpdateRunCrc(ch: Byte, len: nat)
      modifies this`blockCRC
      ensures blockCRC == CrcFrom(old(blockCRC), Copies(ch, len))
    {
      for i := 0 to len
        invariant blockCRC == CrcFrom(old(blockCRC), Copies(ch, i))
      {
        assert Copies(ch, i + 1)[..i] == Copies(ch, i);
        blockCRC := UpdateCrc(blockCRC, ch);
      }
    }

    /** One case of the switch of add_pair_to_block: n copies of the byte. */
    method PutCopies(ch: Byte, n: nat)
      requires 0 <= nblock && nblock + n <= block.Length
      modifies this`nblock, block
      ensures nblock == old(nblock) + n && block[..nblock] == old(block[..nblock]) + Copies(ch, n)
    {
      for i := 0 to n
        invariant nblock == old(nblock) + i && block[..nblock] == old(block[..nblock]) + Copies(ch, i)
      {
        assert Copies(ch, i + 1) == Copies(ch, i) + [ch];
        Put(ch);
      }
    }

    /** The switch of add_pair_to_block. */
    method PutPair(ch: Byte, len: int)
      requires 1 <= len <= 255 && 0 <= nblock && nblock + 5 <= block.Length && inUse.Length == 256
      modifies this`nblock, block, inUse
      ensures nblock <= old(nblock) + 5 && nblock > old(nblock)
      ensures block[..nblock] == old(block[..nblock]) + PairBytes(ch, len)
      ensures inUse[..] == if len <= 3 then old(inUse[..]) else old(inUse[..])[len - 4 := true]
    {
      if len <= 3 {
        PutCopies(ch, len);
      } else {
        inUse[len - 4] := true;
        PutCopies(ch, 4);
        Put(len - 4);
      }
    }

    /** add_pair_to_block. */
    method AddPair()
      requires Valid() && state_in_ch < 256 && nblock + 5 <= size
      modifies this`nblock, this`blockCRC, block, inUse
      ensures Written(old(Folded()), state_in_ch, state_in_len)
      ensures old(nblock) < nblock <= old(nblock) + 5
    {
      hide UpdateCrc, CrcFrom, ReadAll, Complete, RunDecode, MarksExactly, Separate, RunEncode, Closed;
      ghost var u, b := inUse[..], block[..nblock];
      ghost var ch, len := state_in_ch, state_in_len;
      CrcConcat(0xffffffff, RunDecode(b), Copies(ch, len));
      ReadPair(b, ch, len);
      EncodeAppend(RunDecode(b), ch, len);
      forall c: int | c != ch || len == 255 ensures Closed(RunDecode(b) + Copies(ch, len), c) {
        ClosedAppend(RunDecode(b), ch, len, c);
      }
      PairMarks(u, b, ch, len);
      UpdateRunCrc(state_in_ch, state_in_len);
      inUse[state_in_ch] := true;
      assert inUse[..] == u[ch := true];
      PutPair(state_in_ch, state_in_len);
    }

    /** The fast track of ADD_CHAR_TO_BLOCK: a run of one. */
    method AddSingle()
      requires Valid() && state_in_ch < 256 && state_in_len == 1 && nblock + 5 <= size
      modifies this`nblock, this`blockCRC, block, inUse
      ensures Written(old(Folded()), state_in_ch, state_in_len)
      ensures old(nblock) < nblock <= old(nblock) + 5
    {
      hide UpdateCrc, ReadAll, Complete, RunDecode, MarksExactly, Separate, RunEncode, Closed;
      ghost var u, b := inUse[..], block[..nblock];
      ReadPair(b, state_in_ch, 1);
      EncodeAppend(RunDecode(b), state_in_ch, 1);
      forall c: int | c != state_in_ch ensures Closed(RunDecode(b) + Copies(state_in_ch, 1), c) {
        ClosedAppend(RunDecode(b), state_in_ch, 1, c);
      }
      PairMarks(u, b, state_in_ch, 1);
      assert PairBytes(state_in_ch, 1) == Copies(state_in_ch, 1) == [state_in_ch];
      assert (RunDecode(b) + [state_in_ch])[..|RunDecode(b)|] == RunDecode(b);
      var ch: Byte := state_in_ch;
      blockCRC := UpdateCrc(blockCRC, ch);
      inUse[state_in_ch] := true;
      assert inUse[..] == u[state_in_ch := true];
      Put(ch);
    }

    /** flush_RL. */
    method Flush()
      requires Valid() && nblock + 5 <= size
      modifies this, block, inUse
      ensures Valid() && Data() == old(Folded()) && state_in_ch == 256 && Pending() == []
      ensures block[..nblock] == RunEncode(old(Folded()))
      ensures old(nblock) <= nblock <= old(nblock) + 5
    {
      hide ReadAll, Complete, RunDecode, MarksExactly, Separate, CrcOf, RunEncode, Closed;
      if state_in_ch < 256 { AddPair(); }
      assert state_in_ch == 256 ==> Folded() == Data();
      state_in_ch := 256;
      state_in_len := 0;
    }

    /** Any run may start an empty block. */
    lemma FreshBlock()
      requires Valid()
      ensures nblock == 0 ==> forall c :: Separate(ReadAll(block[..nblock]), c) && Closed(Data(), c)
    {
      assert nblock == 0 ==> block[..nblock] == [];
    }

    /** ADD_CHAR_TO_BLOCK. */
    method AddChar(zchh: Byte)
      requires Valid() && nblock + 5 <= size && (state_in_ch == 256 ==> nblock == 0)
      modifies this, block, inUse
      ensures Valid() && state_in_ch < 256 && Folded() == old(Folded()) + [zchh] && Pending() != []
      ensures old(nblock) <= nblock <= old(nblock) + 5
    {
      hide ReadAll, Complete, RunDecode, MarksExactly, Separate, CrcOf, RunEncode, Closed;
      ghost var f := Folded();
      FreshBlock();
      if zchh != state_in_ch && state_in_len == 1 {
        AddSingle();
        state_in_ch := zchh;
        assert Pending() == [zchh];
      } else if zchh != state_in_ch || state_in_len == 255 {
        if state_in_ch < 256 { AddPair(); }
        state_in_ch := zchh;
        state_in_len := 1;
        assert Pending() == [zchh];
      } else {
        ghost var p := Pending();
        state_in_len := state_in_len + 1;
        assert Pending() == p + [zchh] && Data() + (p + [zchh]) == f + [zchh];
      }
      assert |Pending()| == state_in_len > 0;
    }
  }

  lemma PairMarks(u: seq<bool>, b: seq<Byte>, ch: Byte, len: int)
    requires MarksExactly(u, b) && 1 <= len <= 255
    ensures MarksExactly(if len <= 3 then u[ch := true] else u[ch := true][len - 4 := true], b + PairBytes(ch, len))
  {
    if len <= 3 {
      MarkByte(u, b, ch, len);
    } else {
      MarkCount(u, b, ch, len - 4);
      assert u[ch := true][len - 4 := true] == u[len - 4 := true][ch := true];
    }
  }
}
