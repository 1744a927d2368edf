/**
  The output half of the decoder (dep/bzip2/bzlib.c, lines 535-804): both unRLE routines walk the
  inverted column and expand its runs into whatever output space the caller gives, so that a
  block comes out whole however the space is cut up. They agree because both emit the next bytes
  of the same sequence.
*/
module Unrle {
  import opened Common
  import opened Counting
  import opened InverseBwt
  import opened Inverter
  import opened RunLength

  /** An inverted column. */
  datatype Column = Column(l: seq<Byte>, t: seq<int>, origPtr: int)

  ghost predicate Walkable(c: Column) {
    0 < |c.l| == |c.t| <= 900000 && Ranged(c.t) && 0 <= c.origPtr < |c.t|
  }

  /** The k-th byte read from the column; past the end the walk goes on around its cycle. */
  ghost function ByteAt(c: Column, k: nat): Byte
    requires Walkable(c)
  {
    Emitted(c.l, c.t, c.origPtr, k)
  }

  ghost function Spelled(c: Column, k: nat): (b: seq<Byte>)
    requires Walkable(c)
    ensures |b| == k && forall i :: 0 <= i < k ==> b[i] == ByteAt(c, i)
  {
    seq(k, (i: int) requires 0 <= i < k => ByteAt(c, i))
  }

  /** The block the column spells. */
  ghost function Block(c: Column): seq<Byte>
    requires Walkable(c)
  {
    Spelled(c, |c.l|)
  }

  /**
    What the column stands for: the data of its block. Where the block ends between a run and its
    count, the byte the walk comes to next is taken for the count.
  */
  ghost function Expanded(c: Column): seq<Byte>
    requires Walkable(c)
  {
    RunDecode(Spelled(c, if Complete(Block(c)) then |c.l| else |c.l| + 1))
  }

  lemma SpelledNext(c: Column, k: nat)
    requires Walkable(c)
    ensures Spelled(c, k + 1) == Spelled(c, k) + [ByteAt(c, k)]
  {
  }

  /** u bytes have been read, the last of them into k0; `written` and the rest of the run account for all before it. */
  ghost predicate At(c: Column, u: int, k0: int, ch: int, len: int, written: seq<Byte>) {
    && Walkable(c) && 1 <= u <= |c.l| + 2 && len >= 0 && 0 <= ch < 256
    && (u == |c.l| + 1 ==> Complete(Block(c))) && (u == |c.l| + 2 ==> !Complete(Block(c)))
    && (u <= |c.l| ==> k0 == ByteAt(c, u - 1) && Separate(ReadAll(Spelled(c, u - 1)), k0))
    && RunDecode(Spelled(c, u - 1)) == written + Copies(ch, len)
  }

  lemma AtStart(c: Column)
    requires Walkable(c)
    ensures At(c, 1, ByteAt(c, 0), 0, 0, [])
  {
    assert Spelled(c, 0) == [];
  }

  lemma AtEmit(c: Column, u: int, k0: int, ch: int, len: int, written: seq<Byte>)
    requires At(c, u, k0, ch, len, written) && len > 0
    ensures 0 <= ch < 256 && At(c, u, k0, ch, len - 1, written + [ch])
    ensures CrcOf(written + [ch]) == UpdateCrc(CrcOf(written), ch)
  {
    hide RunDecode, Complete, Separate, ReadAll, Walkable, UpdateCrc;
    assert Copies(ch, len) == [ch] + Copies(ch, len - 1);
    assert written + Copies(ch, len) == (written + [ch]) + Copies(ch, len - 1);
    assert (written + [ch])[..|written|] == written;
  }

  /** When the whole block has been read and no run is pending, everything has been written, and conversely. */
  lemma AtDone(c: Column, u: int, k0: int, ch: int, len: int, written: seq<Byte>)
    requires At(c, u, k0, ch, len, written)
    ensures written <= Expanded(c)
    ensures written == Expanded(c) <==> u > |c.l| && len == 0
    ensures |written| + len <= |Expanded(c)|
  {
    hide Walkable, Read1, Complete;
    if u > |c.l| {
      assert len == 0 ==> written + Copies(ch, len) == written;
    } else {
      var n := if Complete(Block(c)) then |c.l| else |c.l| + 1;
      Longer(c, u - 1, k0, n);
      assert RunDecode(Spelled(c, u - 1)) < RunDecode(Spelled(c, n));
    }
  }

  /** Reading on only appends; the first byte of a run is always written. */
  lemma {:induction false} Longer(c: Column, m: nat, k0: int, n: nat)
    requires Walkable(c) && m < n && Separate(ReadAll(Spelled(c, m)), k0)
    ensures RunDecode(Spelled(c, m)) < RunDecode(Spelled(c, n))
    decreases n
  {
    hide Walkable, Read1, Spelled;
    SpelledNext(c, n - 1);
    ReadNext(Spelled(c, n - 1), ByteAt(c, n - 1));
    Read1Grows(ReadAll(Spelled(c, n - 1)), ByteAt(c, n - 1));
    if n - 1 > m { Longer(c, m, k0, n - 1); }
  }

  lemma Read1Grows(d: Reading, c: Byte)
    ensures d.out <= Read1(d, c).out
    ensures d.k != 4 ==> d.out < Read1(d, c).out
  {
  }

  lemma SpelledRun(c: Column, u: nat, k0: Byte, j: nat)
    requires Walkable(c) && u >= 1 && forall i :: u - 1 <= i < u - 1 + j ==> ByteAt(c, i) == k0
    ensures Spelled(c, u - 1 + j) == Spelled(c, u - 1) + Copies(k0, j)
  {
  }

  /** A run of j < 4 bytes, ended by another byte or by the end of the block. */
  lemma ShortRun(c: Column, u: nat, k0: int, k1: int, ch: int, written: seq<Byte>, j: nat)
    requires At(c, u, k0, ch, 0, written) && 1 <= j <= 3 && u + j <= |c.l| + 1
    requires forall i :: u - 1 <= i < u - 1 + j ==> ByteAt(c, i) == k0
    requires u + j <= |c.l| ==> k1 == ByteAt(c, u - 1 + j) && k1 != k0
    ensures At(c, u + j, k1, k0, j, written)
  {
    hide Walkable;
    SpelledRun(c, u, k0, j);
    ReadCopies(Spelled(c, u - 1), k0, j);
    assert written + Copies(ch, 0) == written;
  }

  lemma ReadCount(b: seq<Byte>, out: seq<Byte>, ch: Byte, m: Byte)
    requires ReadAll(b) == Reading(out, ch, 4)
    ensures ReadAll(b + [m]) == Reading(out + Copies(ch, m), ch, 0)
  {
    ReadNext(b, m);
  }

  /** Four equal bytes: the next is a count. */
  lemma FourRead(c: Column, u: nat, k0: int, ch: int, written: seq<Byte>)
    requires At(c, u, k0, ch, 0, written) && u + 3 <= |c.l|
    requires forall i :: u - 1 <= i < u + 3 ==> ByteAt(c, i) == k0
    ensures 0 <= k0 < 256 && ReadAll(Spelled(c, u + 3)) == Reading(written + Copies(k0, 4), k0, 4)
  {
    hide Walkable, Read1, ReadAll;
    assert k0 == ByteAt(c, u - 1);
    SpelledRun(c, u, k0, 4);
    ReadCopies(Spelled(c, u - 1), k0, 4);
    assert written + Copies(ch, 0) == written;
  }

  /** A run of four and its count, which may be a byte the block does not have. */
  lemma LongRun(c: Column, u: nat, k0: int, ch: int, written: seq<Byte>)
    requires At(c, u, k0, ch, 0, written) && u + 3 <= |c.l|
    requires forall i :: u - 1 <= i < u + 3 ==> ByteAt(c, i) == k0
    ensures At(c, u + 5, ByteAt(c, u + 4), k0, ByteAt(c, u + 3) + 4, written)
  {
    hide Walkable, Read1, ReadAll;
    FourRead(c, u, k0, ch, written);
    var m: int := ByteAt(c, u + 3);
    SpelledNext(c, u + 3);
    ReadCount(Spelled(c, u + 3), written + Copies(k0, 4), k0, m);
    assert (written + Copies(k0, 4)) + Copies(k0, m) == written + Copies(k0, m + 4);
  }

  /** The output a call owes the caller: the next bytes of the block's data, as many as fit. */
  function NextBytes(data: seq<Byte>, from: nat, avail: nat): seq<Byte> {
    if from + avail <= |data| then data[from..from + avail] else if from <= |data| then data[from..] else []
  }

  lemma NextBytesAre(data: seq<Byte>, w: seq<Byte>, out: seq<Byte>, avail: nat)
    requires w + out <= data && |out| <= avail && (|out| == avail || w + out == data)
    ensures out == NextBytes(data, |w|, avail)
  {
    assert (w + out)[|w|..] == out;
    assert data[..|w + out|] == w + out;
  }

  // ----- FAST -----

  lemma PackedAt(tt: seq<int>, l: seq<Byte>, t: seq<int>, p: int)
    requires Packed(tt, l, t) && 0 <= p < |l|
    ensures tt[p] % 256 == l[p] && tt[p] / 256 == t[p]
  {
    assert tt[p] == l[p] + 256 * t[p];
    Unpack(l[p], t[p]);
  }

  class FastOutput {
    const tt: array<int>
    const save_nblock: int
    const blockSize100k: int
    var tPos: int
    var nblock_used: int
    var k0: int
    var state_out_ch: Byte
    var state_out_len: int
    var calculatedBlockCRC: Crc
    ghost const c: Column
    ghost var written: seq<Byte>

    ghost predicate Valid()
      reads this, tt
    {
      && Walkable(c) && Packed(tt[..], c.l, c.t)
      && save_nblock == |c.l| <= 100000 * blockSize100k
      && At(c, nblock_used, k0, state_out_ch, state_out_len, written)
      && tPos == Walk(c.t, c.origPtr, nblock_used + 1)
      && calculatedBlockCRC == CrcOf(written)
    }

    /** The test of BZ2_bzDecompress that the block is finished. */
    predicate Done()
      reads this
    {
      nblock_used == save_nblock + 1 && state_out_len == 0
    }

    /** BZ_GET_FAST: the next byte of the column. Its range test never fails here (GetByte). */
    function Get(tPos: int): (int, int)
      reads tt
      requires 0 <= tPos < tt.Length
    {
      (tt[tPos] % 256, tt[tPos] / 256)
    }

    lemma GetByte(u: nat)
      requires Walkable(c) && Packed(tt[..], c.l, c.t) && |c.l| <= 100000 * blockSize100k
      ensures var p := Walk(c.t, c.origPtr, u + 1);
              0 <= p < |c.l| <= tt.Length && p < 100000 * blockSize100k && Get(p) == (ByteAt(c, u), Walk(c.t, c.origPtr, u + 2))
    {
      var p := Walk(c.t, c.origPtr, u + 1);
      PackedAt(tt[..], c.l, c.t, p);
      WalkNext(c.t, c.origPtr, u + 1);
    }

    /** The start of output: decompress.c, lines 500-502 and 545-555. */
    constructor (tt: array<int>, nblock: int, blockSize100k: int, origPtr: int, ghost l: seq<Byte>, ghost t: seq<int>)
      requires Walkable(Column(l, t, origPtr))
      requires Packed(tt[..], l, t) && nblock == |l| <= 100000 * blockSize100k
      ensures Valid() && c == Column(l, t, origPtr) && written == [] && nblock_used == 1 && this.tt == tt && save_nblock == nblock
    {
      this.tt := tt;
      save_nblock := nblock;
      this.blockSize100k := blockSize100k;
      c := Column(l, t, origPtr);
      written := [];
      state_out_len := 0;
      state_out_ch := 0;
      calculatedBlockCRC := 0xffffffff;
      tPos := tt[origPtr] / 256;
      nblock_used := 0;
      new;
      PackedAt(tt[..], l, t, origPtr);
      WalkNext(c.t, c.origPtr, 0);
      GetByte(0);
      AtStart(c);
      k0 := Get(tPos).0;
      tPos := Get(tPos).1;
      nblock_used := nblock_used + 1;
    }

    /** The inner loop of unRLE_obuf_to_output_FAST: all but the last byte of the run. */
    method FinishRun(avail0: nat, ch: Byte, len0: int, crc0: Crc, ghost u: int, ghost k: int, ghost w: seq<Byte>)
      returns (avail: nat, len: int, crc: Crc, out: seq<Byte>)
      requires len0 > 0 && At(c, u, k, ch, len0, w) && crc0 == CrcOf(w)
      ensures At(c, u, k, ch, len, w + out) && crc == CrcOf(w + out) && len > 0
      ensures avail + |out| == avail0 && (avail == 0 || len == 1)
    {
      hide At, CrcFrom, UpdateCrc;
      avail, len, crc, out := avail0, len0, crc0, [];
      assert w + out == w;
      while true
        invariant At(c, u, k, ch, len, w + out) && crc == CrcOf(w + out) && len > 0
        invariant avail + |out| == avail0
        decreases len
      {
        if avail == 0 { return; }
        if len == 1 { break; }
        AtEmit(c, u, k, ch, len, w + out);
        assert (w + out) + [ch] == w + (out + [ch]);
        out := out + [ch];
        crc := UpdateCrc(crc, ch);
        len := len - 1;
        avail := avail - 1;
      }
    }

    /**
      Reading the next run of the column, up to its count if it has one. The result says whether
      the source jumps to s_state_out_len_eq_one.
    */
    method NextRun(tPos0: int, used0: int, k00: int, ghost ch: int, ghost w: seq<Byte>)
      returns (one: bool, len: int, tPos: int, used: int, k0: int)
      requires Walkable(c) && Packed(tt[..], c.l, c.t) && save_nblock == |c.l| <= 100000 * blockSize100k
      requires At(c, used0, k00, ch, 0, w) && used0 <= |c.l| && tPos0 == Walk(c.t, c.origPtr, used0 + 1)
      ensures used > used0 && At(c, used, k0, k00, if one then 1 else len, w) && (!one ==> len > 0)
      ensures tPos == Walk(c.t, c.origPtr, used + 1)
    {
      hide At, Walk, Packed;
      tPos, used, k0, len, one := tPos0, used0, k00, 0, false;
      var k1;
      AtFirst(c, used0, k00, ch, w);
      GetByte(used);
      k1, tPos := Get(tPos).0, Get(tPos).1;
      used := used + 1;
      if k1 != k0 {
        ShortRun(c, used0, k00, k1, ch, w, 1);
        return true, 0, tPos, used, k1;
      }
      if used == save_nblock + 1 {
        ShortRun(c, used0, k00, k0, ch, w, 1);
        return true, 0, tPos, used, k0;
      }
      GetByte(used);
      k1, tPos := Get(tPos).0, Get(tPos).1;
      used := used + 1;
      if used == save_nblock + 1 {
        ShortRun(c, used0, k00, k0, ch, w, 2);
        return false, 2, tPos, used, k0;
      }
      if k1 != k0 {
        ShortRun(c, used0, k00, k1, ch, w, 2);
        return false, 2, tPos, used, k1;
      }
      GetByte(used);
      k1, tPos := Get(tPos).0, Get(tPos).1;
      used := used + 1;
      if used == save_nblock + 1 {
        ShortRun(c, used0, k00, k0, ch, w, 3);
        return false, 3, tPos, used, k0;
      }
      if k1 != k0 {
        ShortRun(c, used0, k00, k1, ch, w, 3);
        return false, 3, tPos, used, k1;
      }
      LongRun(c, used0, k00, ch, w);
      GetByte(used);
      k1, tPos := Get(tPos).0, Get(tPos).1;
      used := used + 1;
      len := k1 + 4;
      GetByte(used);
      k0, tPos := Get(tPos).0, Get(tPos).1;
      used := used + 1;
    }

    /**
      The loop, on copies of the fields. It ends with the space used up and more to write, with the
      whole block written, or with a block found to end between a run and its count.
    */
    method Expand(avail: nat)
      returns (corrupt: bool, out: seq<Byte>, c_crc: Crc, c_ch: Byte, c_len: int, c_used: int, c_k0: int, c_tPos: int)
      requires Valid()
      ensures At(c, c_used, c_k0, c_ch, c_len, written + out) && c_crc == CrcOf(written + out)
      ensures c_tPos == Walk(c.t, c.origPtr, c_used + 1) && |out| <= avail
      ensures corrupt ==> c_used > |c.l| + 1 && c_len == 0
      ensures !corrupt ==> (|out| == avail && c_len > 0) || (c_used == |c.l| + 1 && c_len == 0)
    {
      hide At, Walk, Packed, CrcFrom, UpdateCrc;
      c_crc, c_ch, c_len, c_used, c_k0, c_tPos := calculatedBlockCRC, state_out_ch, state_out_len, nblock_used, k0, tPos;
      var cs_avail: nat := avail;
      ghost var w := written;
      out := [];
      corrupt := false;
      assert w + out == w;
      AtSome(c, c_used, c_k0, c_ch, c_len, w);
      var one := false;
      while true
        invariant At(c, c_used, c_k0, c_ch, if one then 1 else c_len, w + out) && c_crc == CrcOf(w + out)
        invariant c_used >= 1 && c_tPos == Walk(c.t, c.origPtr, c_used + 1)
        invariant cs_avail + |out| == avail
        decreases |c.l| + 2 - c_used
      {
        AtSome(c, c_used, c_k0, c_ch, if one then 1 else c_len, w + out);
        // what is left of the run before
        if one || c_len > 0 {
          if !one {
            var more;
            ghost var before := w + out;
            cs_avail, c_len, c_crc, more := FinishRun(cs_avail, c_ch, c_len, c_crc, c_used, c_k0, before);
            out := out + more;
            assert before + more == w + out;
            if cs_avail == 0 { return; }
          }
          one := false;
          if cs_avail == 0 {
            c_len := 1;
            return;
          }
          AtEmit(c, c_used, c_k0, c_ch, 1, w + out);
          assert (w + out) + [c_ch] == w + (out + [c_ch]);
          out := out + [c_ch];
          c_crc := UpdateCrc(c_crc, c_ch);
          cs_avail := cs_avail - 1;
          c_len := 0;
        }
        assert At(c, c_used, c_k0, c_ch, 0, w + out);
        if c_used > save_nblock + 1 {
          corrupt := true;
          return;
        }
        // the next run, if there is one
        if c_used == save_nblock + 1 {
          c_len := 0;
          return;
        }
        AtFirst(c, c_used, c_k0, c_ch, w + out);
        ghost var ch := c_ch;
        c_ch := c_k0;
        one, c_len, c_tPos, c_used, c_k0 := NextRun(c_tPos, c_used, c_k0, ch, w + out);
      }
    }

    /**
      unRLE_obuf_to_output_FAST: as many of the next bytes as the space allows. Its answer is
      "corrupt" exactly when the block ends between a run and its count and the space takes all
      that is left; it then returns without saving anything, next_out included.
    */
    method UnRLE(avail: nat) returns (corrupt: bool, out: seq<Byte>)
      requires Valid()
      modifies this
      ensures Valid() && written == old(written) + out
      ensures corrupt <==> !Complete(Block(c)) && |old(written)| + avail >= |Expanded(c)|
      ensures out == if corrupt then [] else NextBytes(Expanded(c), |old(written)|, avail)
      ensures written <= Expanded(c)
      ensures !corrupt ==> (Done() <==> written == Expanded(c))
    {
      hide At, Walk, Packed, CrcFrom, UpdateCrc, RunDecode, Complete, Walkable;
      ghost var w := written;
      var c_crc, c_ch, c_len, c_used, c_k0, c_tPos;
      AtDone(c, nblock_used, k0, state_out_ch, state_out_len, written);
      corrupt, out, c_crc, c_ch, c_len, c_used, c_k0, c_tPos := Expand(avail);
      AtDone(c, c_used, c_k0, c_ch, c_len, w + out);
      if corrupt {
        Ended(c, c_used, c_k0, c_ch, w + out);
        assert w + [] == w;
        return true, [];
      }
      calculatedBlockCRC, state_out_ch, state_out_len, nblock_used, k0, tPos := c_crc, c_ch, c_len, c_used, c_k0, c_tPos;
      written := w + out;
      Stopped(c, nblock_used, k0, state_out_ch, state_out_len, written);
      NextBytesAre(Expanded(c), w, out, avail);
    }
  }

  // ----- SMALL -----

  class SmallOutput {
    const ll16: array<int>
    const ll4: array<int>
    const cftab: array<int>
    const save_nblock: int
    const blockSize100k: int
    var tPos: int
    var nblock_used: int
    var k0: int
    var state_out_ch: Byte
    var state_out_len: int
    var calculatedBlockCRC: Crc
    ghost const c: Column
    ghost const u: seq<int>      // the table: T with the cycle through origPtr reversed
    ghost var written: seq<Byte>

    /** The tables the walk reads. */
    ghost predicate Tables()
      reads ll16, ll4, cftab
    {
      && Walkable(c) && Stable(c.l, c.t) && |u| == |c.l| && Ranged(u)
      && Table(ll16[..], ll4[..], u) && (forall k: nat :: Walk(u, c.origPtr, k) == Walk(c.t, c.origPtr, k))
      && cftab.Length == 257 && forall x :: 0 <= x <= 256 ==> cftab[x] == Less(c.l, x)
    }

    ghost predicate Valid()
      reads this, ll16, ll4, cftab
    {
      && Tables() && Walkable(c) && save_nblock == |c.l| <= 100000 * blockSize100k
      && At(c, nblock_used, k0, state_out_ch, state_out_len, written)
      && tPos == Walk(c.t, c.origPtr, nblock_used)
      && calculatedBlockCRC == CrcOf(written)
    }

    predicate Done()
      reads this
    {
      nblock_used == save_nblock + 1 && state_out_len == 0
    }

    /** BZ_GET_SMALL, with the count of bytes read. */
    method Get() returns (k1: int)
      requires Tables() && nblock_used >= 0 && tPos == Walk(c.t, c.origPtr, nblock_used)
      modifies this`tPos, this`nblock_used
      ensures k1 == ByteAt(c, old(nblock_used)) && nblock_used == old(nblock_used) + 1
      ensures tPos == Walk(c.t, c.origPtr, nblock_used)
    {
      hide Stable, Less, GetLL, Walk;
      WalkNext(c.t, c.origPtr, nblock_used);
      WalkNext(u, c.origPtr, nblock_used);
      assert Walk(u, c.origPtr, nblock_used) == Walk(c.t, c.origPtr, nblock_used);
      assert Walk(u, c.origPtr, nblock_used + 1) == Walk(c.t, c.origPtr, nblock_used + 1);
      TableBounds(ll16[..], ll4[..], u);
      k1 := IndexIntoF(tPos, cftab, c.l, c.t);
      tPos := GetLL(ll16[..], ll4[..], tPos);
      nblock_used := nblock_used + 1;
    }

    constructor (ll16: array<int>, ll4: array<int>, cftab: array<int>, nblock: int, blockSize100k: int, origPtr: int,
                 ghost l: seq<Byte>, ghost t: seq<int>, ghost u: seq<int>)
      requires Walkable(Column(l, t, origPtr))
      requires Stable(l, t) && nblock == |l| <= 100000 * blockSize100k && |u| == |l| && Ranged(u)
      requires Table(ll16[..], ll4[..], u) && forall k: nat :: Walk(u, origPtr, k) == Walk(t, origPtr, k)
      requires cftab.Length == 257 && forall x :: 0 <= x <= 256 ==> cftab[x] == Less(l, x)
      ensures Valid() && c == Column(l, t, origPtr) && written == [] && nblock_used == 1
      ensures this.ll16 == ll16 && this.ll4 == ll4 && this.cftab == cftab
    {
      this.ll16 := ll16;
      this.ll4 := ll4;
      this.cftab := cftab;
      save_nblock := nblock;
      this.blockSize100k := blockSize100k;
      c := Column(l, t, origPtr);
      this.u := u;
      written := [];
      state_out_len := 0;
      state_out_ch := 0;
      calculatedBlockCRC := 0xffffffff;
      tPos := origPtr;
      nblock_used := 0;
      new;
      AtStart(c);
      k0 := Get();
    }

    /** The inner loop of unRLE_obuf_to_output_SMALL. */
    method FinishRun(avail0: nat) returns (avail: nat, out: seq<Byte>)
      requires Valid()
      modifies this`state_out_len, this`calculatedBlockCRC, this`written
      ensures Valid() && avail + |out| == avail0 && written == old(written) + out
      ensures avail == 0 || state_out_len == 0
    {
      hide At, CrcFrom, UpdateCrc, Walk, Tables;
      avail, out := avail0, [];
      AtSome(c, nblock_used, k0, state_out_ch, state_out_len, written);
      while true
        invariant Valid() && avail + |out| == avail0 && written == old(written) + out && state_out_len >= 0
        decreases state_out_len
      {
        if avail == 0 { return; }
        if state_out_len == 0 { break; }
        AtEmit(c, nblock_used, k0, state_out_ch, state_out_len, written);
        out := out + [state_out_ch];
        calculatedBlockCRC := UpdateCrc(calculatedBlockCRC, state_out_ch);
        written := written + [state_out_ch];
        state_out_len := state_out_len - 1;
        avail := avail - 1;
      }
    }

    /** j bytes of a run have been read, all equal to k0. */
    ghost predicate InRun(used0: int, ch: int, j: int)
      reads this, ll16, ll4, cftab
    {
      && Tables() && Walkable(c) && save_nblock == |c.l| <= 100000 * blockSize100k
      && At(c, used0, k0, ch, 0, written) && calculatedBlockCRC == CrcOf(written)
      && 1 <= j <= 4 && used0 >= 1 && nblock_used == used0 + j - 1 <= save_nblock
      && (forall i :: used0 - 1 <= i < used0 - 1 + j ==> ByteAt(c, i) == k0)
      && tPos == Walk(c.t, c.origPtr, nblock_used) && state_out_ch == k0
    }

    /** One of the three equal steps that look at the next byte of a run. */
    method Extend(ghost used0: int, ghost ch: int, j: int) returns (stop: bool)
      requires InRun(used0, ch, j) && j <= 3
      modifies this`tPos, this`nblock_used, this`k0, this`state_out_len
      ensures nblock_used == old(nblock_used) + 1
      ensures stop ==> Valid()
      ensures !stop ==> InRun(used0, ch, j + 1)
    {
      hide At, Walk, Tables;
      state_out_len := j;
      var k1 := Get();
      if nblock_used == save_nblock + 1 {
        ShortRun(c, used0, k0, k0, ch, written, j);
        return true;
      }
      if k1 != k0 {
        ShortRun(c, used0, k0, k1, ch, written, j);
        k0 := k1;
        return true;
      }
      return false;
    }

    /** The first byte of the run is in k0 already. */
    method BeginRun() returns (ghost ch: int)
      requires Valid() && state_out_len == 0 && nblock_used <= save_nblock
      modifies this`state_out_ch
      ensures InRun(nblock_used, ch, 1)
    {
      hide At, Walk, Tables;
      ch := state_out_ch;
      AtFirst(c, nblock_used, k0, ch, written);
      state_out_ch := k0;
    }

    /** After four equal bytes: the count, and the first byte of the next run. */
    method TakeCount(ghost used0: int, ghost ch: int)
      requires InRun(used0, ch, 4)
      modifies this`tPos, this`nblock_used, this`k0, this`state_out_len
      ensures Valid() && nblock_used == old(nblock_used) + 2
    {
      hide At, Walk, Tables;
      LongRun(c, used0, k0, ch, written);
      var k1 := Get();
      state_out_len := k1 + 4;
      k0 := Get();
    }

    /** The next run of the column, up to its count if it has one. */
    method NextRun()
      requires Valid() && state_out_len == 0 && nblock_used <= save_nblock
      modifies this`tPos, this`nblock_used, this`k0, this`state_out_ch, this`state_out_len
      ensures Valid() && nblock_used > old(nblock_used)
    {
      hide InRun, Valid;
      ghost var used0 := nblock_used;
      ghost var ch := BeginRun();
      var stop := Extend(used0, ch, 1);
      if stop { return; }
      stop := Extend(used0, ch, 2);
      if stop { return; }
      stop := Extend(used0, ch, 3);
      if stop { return; }
      TakeCount(used0, ch);
    }

    /** unRLE_obuf_to_output_SMALL: the same bytes as FAST. Corruption is seen one byte of space later, and all is saved. */
    method UnRLE(avail0: nat) returns (corrupt: bool, out: seq<Byte>)
      requires Valid()
      modifies this
      ensures Valid() && written == old(written) + out
      ensures corrupt <==> !Complete(Block(c)) && |old(written)| + avail0 > |Expanded(c)|
      ensures out == NextBytes(Expanded(c), |old(written)|, avail0)
      ensures written <= Expanded(c) && (Done() <==> Complete(Block(c)) && written == Expanded(c))
    {
      hide At, Walk, Tables, CrcFrom, UpdateCrc;
      var avail: nat := avail0;
      ghost var w := written;
      out, corrupt := [], false;
      AtSome(c, nblock_used, k0, state_out_ch, state_out_len, written);
      while true
        invariant Valid() && avail + |out| == avail0 && written == w + out && 1 <= nblock_used <= |c.l| + 2
        decreases |c.l| + 2 - nblock_used
      {
        // what is left of the run before
        var more;
        avail, more := FinishRun(avail);
        out := out + more;
        if avail == 0 { break; }
        // the next run, if there is one
        if nblock_used == save_nblock + 1 { break; }
        if nblock_used > save_nblock + 1 {
          corrupt := true;
          break;
        }
        NextRun();
        AtSome(c, nblock_used, k0, state_out_ch, state_out_len, written);
      }
      AtDone(c, nblock_used, k0, state_out_ch, state_out_len, written);
      Stopped(c, nblock_used, k0, state_out_ch, state_out_len, written);
      NextBytesAre(Expanded(c), w, out, avail0);
    }
  }

  lemma AtSome(c: Column, u: int, k0: int, ch: int, len: int, w: seq<Byte>)
    requires At(c, u, k0, ch, len, w)
    ensures 1 <= u <= |c.l| + 2 && len >= 0 && 0 <= ch < 256
  {
  }

  /** Past the end of a block there is nothing left to write. */
  lemma Ended(c: Column, u: int, k0: int, ch: int, w: seq<Byte>)
    requires At(c, u, k0, ch, 0, w) && u > |c.l| + 1
    ensures !Complete(Block(c)) && w == Expanded(c)
  {
    hide RunDecode, Complete;
    assert w + Copies(ch, 0) == w;
  }

  /** Which side of the end tells whether the block is complete. */
  lemma Stopped(c: Column, u: int, k0: int, ch: int, len: int, w: seq<Byte>)
    requires At(c, u, k0, ch, len, w)
    ensures u == |c.l| + 1 ==> Complete(Block(c))
    ensures u == |c.l| + 2 ==> !Complete(Block(c))
  {
  }

  lemma AtFirst(c: Column, u: int, k0: int, ch: int, w: seq<Byte>)
    requires At(c, u, k0, ch, 0, w) && u <= |c.l|
    ensures u >= 1 && Walkable(c) && k0 == ByteAt(c, u - 1)
  {
  }
}
