/**
  dep/bzip2/bzlib.c, BZ2_bzDecompress (lines 808-858), on streams the compressor produces: however
  the compressed bytes and the output space are portioned, the data comes out whole, the CRCs
  agree, and the end is reported exactly when everything has been written.
*/
module BzDecompress {
  import opened Common
  import opened Counting
  import opened InverseBwt
  import opened BitIO
  import opened RunLength
  import opened StreamFormat
  import opened Decompress
  import opened DecodeBlock
  import opened ReadingMachine
  import BF = BlockFormat
  import BRT = BlockRoundTrip
  import WB = WholeBlock
  import Unrle
  import S = Stream

  const OK := 0
  const STREAM_END := 4
  const SEQUENCE_ERROR := -1

  /** What follows in the stream from block i on. */
  ghost function Rest(items: seq<Item>, i: nat, pad: nat): Bits
    requires i <= |items|
  {
    ItemsBits(items[i..]) + Trailer(CrcValue(Combined(0, items))) + Zeros(pad)
  }

  lemma RestNext(items: seq<Item>, i: nat, pad: nat)
    requires i < |items|
    ensures Rest(items, i, pad) == ItemBits(items[i]) + Rest(items, i + 1, pad)
  {
    hide ItemBits, Trailer;
    assert items[i..][1..] == items[i + 1..];
  }

  lemma RestEnd(items: seq<Item>, pad: nat)
    ensures Rest(items, |items|, pad) == Trailer(CrcValue(Combined(0, items))) + Zeros(pad)
  {
    hide Trailer, Combined, CrcValue;
    assert items[|items|..] == [];
  }

  /** A column fit to be inverted, of the block b. */
  ghost predicate Hands(column: seq<Byte>, origPtr: int, blockSize100k: int, b: seq<Byte>) {
    Decoded(column, origPtr, blockSize100k) && SpeltBlock(column, origPtr) == b && Complete(b)
  }

  lemma HandsBlock(column: seq<Byte>, origPtr: int, blockSize100k: int, b: seq<Byte>)
    requires 0 <= origPtr < |column| == |b| <= 900000 && |b| <= 100000 * blockSize100k && Complete(b)
    requires forall t, j :: Stable(column, t) && 0 <= j < |b| ==> Emitted(column, t, origPtr, j) == b[j]
    ensures Hands(column, origPtr, blockSize100k, b)
  {
    hide Stable, Emitted, Complete, Unrle.Block, Inverted;
    SpellsBlock(column, origPtr, b);
  }

  /** Where the machine gets to from the header of block i. */
  lemma FromBlock(items: seq<Item>, i: nat, pad: nat, blockSize100k: int, head: Saved)
    requires AllGood(items, blockSize100k) && i <= |items| && head.blockSize100k == blockSize100k
    ensures var r := Run(Running(BlkHdr(1), head), Rest(items, i, pad));
            if i < |items| then
              && r.0.Output? && r.1 == Rest(items, i + 1, pad)
              && |items[i].p| == |items[i].b| && (forall j :: 0 <= j < |items[i].p| ==> 0 <= items[i].p[j] < |items[i].b|)
              && r.0.column == LastColumn(items[i].b, items[i].p)
              && r.0.s.blockSize100k == blockSize100k && r.0.s.storedCRC == items[i].k.crc && !r.0.s.blockRandomised
              && Hands(r.0.column, r.0.s.origPtr, blockSize100k, items[i].b)
            else r.0.StreamEnd? && r.0.s.storedCRC == CrcValue(Combined(0, items))
  {
    hide Run, Rest, LastColumn, BRT.BlockBits, Complete, CrcOf, RunDecode, Emitted, Stable, BRT.Sound, Hands;
    if i < |items| {
      RestNext(items, i, pad);
      var it := items[i];
      WB.BlockComesBack(it.k, it.b, it.p, head, Rest(items, i + 1, pad));
      SavedSize(it.k, head);
      HandsBlock(LastColumn(it.b, it.p), it.k.origPtr, blockSize100k, it.b);
    } else {
      RestEnd(items, pad);
      ReadTrailer(head, CrcValue(Combined(0, items)), Zeros(pad));
    }
  }

  lemma SavedSize(k: BF.Block, s: Saved)
    requires |k.inUse| == 256 && BRT.Sound(k)
    ensures BRT.BlockRead(s, k).blockSize100k == s.blockSize100k
  {
  }

  /** The machine is on its way through block i (or the trailer), whatever part of it has been supplied. */
  ghost predicate Within(st: State, bits: Bits, items: seq<Item>, i: nat, pad: nat, head: Saved)
    requires i <= |items|
  {
    Run(st, bits) == Run(Running(BlkHdr(1), head), Rest(items, i, pad))
  }

  /** Running on with what has been supplied stays on the way, or arrives. */
  lemma Advance(st: State, p: Bits, future: Bits, items: seq<Item>, i: nat, pad: nat, head: Saved)
    requires i <= |items| && Within(st, p + future, items, i, pad, head)
    ensures var r := Run(st, p);
            && Within(r.0, r.1 + future, items, i, pad, head)
            && (!r.0.Running? || future == [] ==> (r.0, r.1 + future) == Run(Running(BlkHdr(1), head), Rest(items, i, pad)))
  {
    hide Rest;
    RunSplit(st, p, future);
    var r := Run(st, p);
    if !r.0.Running? { BRT.RunStops(r.0, r.1 + future); }
    if future == [] { assert p + future == p && r.1 + future == r.1; }
  }

  lemma AtBlock(items: seq<Item>, i: nat, pad: nat, head: Saved)
    requires i <= |items|
    ensures Within(Running(BlkHdr(1), head), Rest(items, i, pad), items, i, pad, head)
  {
  }

  lemma StoredCrc(items: seq<Item>, i: nat, blockSize100k: int)
    requires AllGood(items, blockSize100k) && i < |items|
    ensures items[i].k.crc == CrcValue(FinalCrc(CrcOf(RunDecode(items[i].b))))
    ensures DataCrc(items[i].b) == FinalCrc(CrcOf(RunDecode(items[i].b)))
  {
    assert Good(items[i], blockSize100k);
  }

  lemma NextContent(items: seq<Item>, i: nat)
    requires i < |items|
    ensures Content(items[..i + 1]) == Content(items[..i]) + RunDecode(items[i].b)
    ensures Combined(0, items[..i + 1]) == CombineCrc(Combined(0, items[..i]), DataCrc(items[i].b))
  {
    hide RunDecode, DataCrc, CombineCrc;
    assert items[..i + 1] == items[..i] + [items[i]];
    ContentAppend(items[..i], items[i]);
    CombinedAppend(0, items[..i], items[i]);
  }

  lemma {:induction false} ContentPrefix(items: seq<Item>, i: nat)
    requires i <= |items|
    ensures Content(items[..i]) <= Content(items)
    decreases |items| - i
  {
    hide RunDecode;
    if i == |items| {
      assert items[..i] == items;
    } else {
      NextContent(items, i);
      ContentPrefix(items, i + 1);
    }
  }

  lemma AtStart(blockSize100k: int, items: seq<Item>, pad: nat)
    requires 1 <= blockSize100k <= 9
    ensures Within(Running(Magic(1), EmptySaved()), [] + (StreamHeader(blockSize100k) + Rest(items, 0, pad)),
                   items, 0, pad, EmptySaved().(blockSize100k := blockSize100k))
  {
    hide StreamHeader, Rest, Run;
    var b := StreamHeader(blockSize100k) + Rest(items, 0, pad);
    assert [] + b == b;
    ReadStreamHeader(blockSize100k, EmptySaved(), Rest(items, 0, pad));
  }

  class DState {
    const dec: Decompressor
    const smallDecompress: bool
    var fast: Unrle.FastOutput?
    var slow: Unrle.SmallOutput?
    var calculatedCombinedCRC: Crc

    // the stream being read, what of it is still to be supplied, and what has come out
    ghost const blockSize100k: int
    ghost const items: seq<Item>
    ghost const pad: nat
    ghost var future: Bits
    ghost var i: nat
    ghost var head: Saved
    ghost var total: seq<Byte>

    /** The output routine in use has block b before it, and has written w of its data. */
    ghost predicate Outputs(b: seq<Byte>, w: seq<Byte>)
      reads `fast, `slow
      reads if fast != null then {fast, fast.tt} else {}
      reads if slow != null then {slow, slow.ll16, slow.ll4, slow.cftab} else {}
    {
      && Complete(b)
      && if smallDecompress
         then slow != null && slow.Valid() && Unrle.Block(slow.c) == b && slow.written == w
         else fast != null && fast.Valid() && Unrle.Block(fast.c) == b && fast.written == w
    }

    ghost predicate Stream()
      reads `calculatedCombinedCRC, `i, `head
    {
      && AllGood(items, blockSize100k) && i <= |items| && head.blockSize100k == blockSize100k
      && calculatedCombinedCRC == Combined(0, items[..i])
    }

    /** Input of block i is being read. */
    ghost predicate Reading()
      reads this, dec, dec.reader
    {
      && Stream() && dec.reader.Valid() && dec.st.Running? && total == Content(items[..i])
      && Within(dec.st, dec.reader.Pending() + future, items, i, pad, head)
    }

    /** All of block i has been read, and nothing behind it. */
    ghost predicate Arrived()
      reads `calculatedCombinedCRC, `i, `head, `future, dec, dec.reader
    {
      && Stream() && dec.reader.Valid() && dec.st.Output? && i < |items| && dec.reader.Pending() + future == Rest(items, i + 1, pad)
      && dec.st.s.blockSize100k == blockSize100k && dec.st.s.storedCRC == items[i].k.crc && !dec.st.s.blockRandomised
    }

    /** Block i is being written, of which w has been. */
    ghost predicate Writing(w: seq<Byte>)
      reads this, dec, dec.reader
      reads if fast != null then {fast, fast.tt} else {}
      reads if slow != null then {slow, slow.ll16, slow.ll4, slow.cftab} else {}
    {
      0 <= i < |items| && Outputs(items[i].b, w) && total == Content(items[..i]) + w && Arrived()
    }

    ghost predicate Ended()
      reads this, dec, dec.reader
    {
      Stream() && dec.st.StreamEnd? && i == |items| && total == Content(items)
    }

    /** The bytes written of the current block. */
    ghost function Written(): seq<Byte>
      reads `fast, `slow
      reads if fast != null then {fast} else {}
      reads if slow != null then {slow} else {}
    {
      if smallDecompress then (if slow != null then slow.written else []) else (if fast != null then fast.written else [])
    }

    ghost predicate Valid()
      reads this, dec, dec.reader
      reads dec.inUse, dec.seqToUnseq, dec.minLens, dec.mtfa, dec.mtfbase, dec.limit, dec.base, dec.perm, dec.selectorMtf, dec.selector, dec.unzftab
      reads if fast != null then {fast, fast.tt} else {}
      reads if slow != null then {slow, slow.ll16, slow.ll4, slow.cftab} else {}
    {
      dec.Valid() && Underway()
    }

    ghost predicate Underway()
      reads this, dec, dec.reader
      reads if fast != null then {fast, fast.tt} else {}
      reads if slow != null then {slow, slow.ll16, slow.ll4, slow.cftab} else {}
    {
      Reading() || Writing(Written()) || Ended()
    }

    /** BZ2_bzDecompressInit, about to be given a stream. */
    constructor (small: bool, ghost blockSize100k: int, ghost items: seq<Item>, ghost pad: nat)
      requires 1 <= blockSize100k <= 9 && AllGood(items, blockSize100k)
      ensures Valid() && dec.st.Running? && total == [] && future == StreamHeader(blockSize100k) + Rest(items, 0, pad)
      ensures this.blockSize100k == blockSize100k && this.items == items && this.pad == pad
      ensures fresh(dec) && fresh(dec.reader) && fast == null && slow == null
      ensures fresh(dec.inUse) && fresh(dec.seqToUnseq) && fresh(dec.minLens) && fresh(dec.mtfa) && fresh(dec.mtfbase)
      ensures forall t :: 0 <= t < 6 ==> fresh(dec.limit[t]) && fresh(dec.base[t]) && fresh(dec.perm[t])
      ensures |dec.limit| == |dec.base| == |dec.perm| == 6 && fresh(dec.selectorMtf) && fresh(dec.selector) && fresh(dec.unzftab)
    {
      hide Decompressor.Valid, Decompressor.Standing, Decompressor.Agrees, BitReader.Valid, BitReader.Pending,
           StreamHeader, Rest, Run, Within, AllGood, Writing, Ended;
      dec := new Decompressor();
      smallDecompress := small;
      fast, slow := null, null;
      calculatedCombinedCRC := 0;
      this.blockSize100k := blockSize100k;
      this.items := items;
      this.pad := pad;
      i := 0;
      head := EmptySaved().(blockSize100k := blockSize100k);
      total := [];
      future := StreamHeader(blockSize100k) + Rest(items, 0, pad);
      new;
      dec.Phases();
      assert items[..0] == [];
      AtStart(blockSize100k, items, pad);
    }

    /** The caller supplies the next bytes of the stream. */
    method Supply(chunk: seq<Byte>)
      requires Valid() && Unpacked(chunk) <= future
      modifies `future, dec.reader
      ensures Valid() && future == old(future)[8 * |chunk|..]
    {
      hide Decompressor.Valid, Decompressor.Standing, Decompressor.Agrees, BitReader.Valid, BitReader.Pending,
           Rest, Run, Unpacked, Content, Combined, AllGood, Outputs;
      dec.Phases();
      ghost var p, f, u := dec.reader.Pending(), future, Unpacked(chunk);
      dec.Supply(chunk);
      dec.Phases();
      future := future[|u|..];
      assert f == u + future;
      assert (p + u) + future == p + f;
    }

    /** The column of block i has been received. */
    ghost predicate Received()
      reads this, dec, dec.reader
    {
      && Arrived() && Hands(dec.st.column, dec.st.s.origPtr, blockSize100k, items[i].b)
      && total == Content(items[..i])
    }

    /** The end of BZ2_decompress for a block: its output is prepared. */
    method BeginOutput()
      requires dec.Valid() && Received()
      modifies this`fast, this`slow
      ensures Writing([])
      ensures if smallDecompress then slow != null && fresh(slow) && fast == old(fast) else fast != null && fresh(fast) && slow == old(slow)
    {
      hide Decompressor.Valid, Decompressor.Standing, Decompressor.Agrees, BitReader.Valid, BitReader.Pending,
           Rest, Content, Combined, RunDecode, Decoded, AllGood, Unrle.Walkable, Unrle.At, Unrle.Block, Inverse;
      dec.Phases();
      assert dec.phase.Written?;
      assert Decoded(dec.column, dec.origPtr, dec.blockSize100k);
      if smallDecompress {
        slow := StartSmall(dec.column, dec.unzftab, dec.origPtr, dec.blockSize100k);
      } else {
        fast := StartFast(dec.column, dec.unzftab, dec.origPtr, dec.blockSize100k);
      }
      assert Content(items[..i]) + [] == Content(items[..i]);
    }

    /** BZ2_decompress, with what is at hand. */
    method ReadOn()
      requires dec.Valid() && Reading()
      modifies dec, dec.reader, dec.inUse, dec.seqToUnseq, dec.minLens, dec.mtfa, dec.mtfbase, dec.limit, dec.base, dec.perm, dec.selectorMtf, dec.selector, dec.unzftab
      ensures dec.Valid()
      ensures dec.st.Running? ==> Reading() && future != []
      ensures dec.st.Output? ==> Received()
      ensures dec.st.StreamEnd? ==> Ended() && dec.st.s.storedCRC == CrcValue(calculatedCombinedCRC)
      ensures !dec.st.Failed? && !dec.st.Stray?
    {
      hide Decompressor.Valid, Decompressor.Standing, Decompressor.Agrees, BitReader.Valid, BitReader.Pending,
           Rest, Run, Unpacked, Content, Combined, LastColumn, RunDecode, Hands;
      ghost var st, p, f := dec.st, dec.reader.Pending(), future;
      NothingMore(p);
      dec.Decompress([]);
      dec.Phases();
      Advance(st, p, f, items, i, pad, head);
      FromBlock(items, i, pad, blockSize100k, head);
      assert i == |items| ==> items[..i] == items;
    }

    lemma NothingMore(p: Bits)
      ensures p + Unpacked([]) == p
    {
      assert Unpacked([]) == [];
    }

    /** One call of the output routine, FAST or SMALL. */
    method Unrun(avail: nat, ghost b: seq<Byte>, ghost w: seq<Byte>)
      returns (corrupt: bool, more: seq<Byte>, done: bool)
      requires Outputs(b, w)
      modifies (if fast != null then {fast} else {}), (if slow != null then {slow} else {})
      ensures !corrupt && Outputs(b, w + more) && more == Unrle.NextBytes(RunDecode(b), |w|, avail) && Written() == w + more
      ensures |more| <= avail && (done <==> w + more == RunDecode(b)) && (!done ==> |more| == avail)
    {
      hide RunDecode, Unrle.At, Unrle.Walkable;
      if smallDecompress {
        corrupt, more := slow.UnRLE(avail);
        done := slow.Done();
      } else {
        corrupt, more := fast.UnRLE(avail);
        done := fast.Done();
      }
      NextSize(RunDecode(b), w, more, avail);
    }

    /** calculatedBlockCRC of the routine in use. */
    method BlockCrc(ghost b: seq<Byte>, ghost w: seq<Byte>) returns (crc: Crc)
      requires Outputs(b, w)
      ensures crc == CrcOf(w)
    {
      hide Unrle.At, Unrle.Walkable, CrcFrom;
      crc := if smallDecompress then slow.calculatedBlockCRC else fast.calculatedBlockCRC;
    }

    /** The state BZ_X_OUTPUT of BZ2_bzDecompress: write what fits. */
    method WriteOut(avail: nat) returns (corrupt: bool, more: seq<Byte>, done: bool)
      requires Writing(Written())
      modifies `total, (if fast != null then {fast} else {}), (if slow != null then {slow} else {})
      ensures !corrupt && total == old(total) + more && |more| <= avail && Writing(Written())
      ensures done <==> Written() == RunDecode(items[i].b)
      ensures !done ==> |more| == avail
    {
      hide Decompressor.Valid, Decompressor.Standing, Decompressor.Agrees, BitReader.Valid, BitReader.Pending,
           RunDecode, Unrle.At, Unrle.Walkable, Rest, Content, Combined, AllGood, Within, Stream, Unrle.NextBytes, Outputs;
      ghost var w := Written();
      corrupt, more, done := Unrun(avail, items[i].b, w);
      total := total + more;
      assert Content(items[..i]) + (w + more) == (Content(items[..i]) + w) + more;
    }

    lemma NextSize(data: seq<Byte>, w: seq<Byte>, more: seq<Byte>, avail: nat)
      requires more == Unrle.NextBytes(data, |w|, avail)
      ensures |more| <= avail && (w + more <= data && |more| < avail ==> w + more == data)
    {
    }

    /** Whether the bytes w written of a block have the CRC stored with it, whatever was stored. */
    method CheckBlock(ghost b: seq<Byte>, ghost w: seq<Byte>) returns (ok: bool, crc: Crc)
      requires dec.Valid() && dec.st.Output? && Outputs(b, w)
      ensures crc == FinalCrc(CrcOf(w)) && (ok <==> CrcValue(crc) == dec.st.s.storedCRC)
    {
      hide Decompressor.Valid, Decompressor.Standing, Decompressor.Agrees, BitReader.Valid, BitReader.Pending,
           Outputs, CrcOf, FinalCrc, CrcValue;
      dec.Phases();
      crc := BlockCrc(b, w);
      crc := FinalCrc(crc);
      ok := CrcValue(crc) == dec.storedCRC;
    }

    /** Whether the CRCs of all blocks have the value stored at the end of the stream, whatever was stored. */
    method CheckStream() returns (ret: int)
      requires dec.Valid() && dec.st.StreamEnd?
      ensures ret == if CrcValue(calculatedCombinedCRC) == dec.st.s.storedCRC then STREAM_END else DATA_ERROR
    {
      hide Decompressor.Valid, Decompressor.Standing, Decompressor.Agrees, BitReader.Valid, BitReader.Pending, CrcValue;
      dec.Phases();
      if CrcValue(calculatedCombinedCRC) != dec.storedCRC { return DATA_ERROR; }
      ret := STREAM_END;
    }

    /** The block is as the stream has it, all of it written: where to go on. */
    ghost predicate Finished(b: seq<Byte>, w: seq<Byte>)
      reads this, dec, dec.reader
      reads if fast != null then {fast, fast.tt} else {}
      reads if slow != null then {slow, slow.ll16, slow.ll4, slow.cftab} else {}
    {
      i < |items| && b == items[i].b && w == Written() == RunDecode(b) && Writing(w)
    }

    lemma AllWritten()
      requires Writing(Written()) && Written() == RunDecode(items[i].b)
      ensures i < |items| && dec.st.Output? && Outputs(items[i].b, Written()) && Finished(items[i].b, Written())
    {
      hide RunDecode, Outputs, BitReader.Valid, BitReader.Pending, Rest, Content, Combined, AllGood;
    }

    /**
      A block is done: its CRC is checked and the next header expected. For any block, it goes on
      exactly if the bytes written have the stored CRC; a block of the stream does.
    */
    method FinishBlock(ghost b: seq<Byte>, ghost w: seq<Byte>) returns (ok: bool)
      requires dec.Valid() && dec.st.Output? && Outputs(b, w)
      modifies `calculatedCombinedCRC, `i, `head, dec
      ensures dec.Valid() && (ok <==> CrcValue(FinalCrc(CrcOf(w))) == old(dec.st.s.storedCRC))
      ensures ok ==> dec.st == Running(BlkHdr(1), old(dec.st.s)) && calculatedCombinedCRC == CombineCrc(old(calculatedCombinedCRC), FinalCrc(CrcOf(w)))
      ensures !ok ==> dec.st == old(dec.st) && calculatedCombinedCRC == old(calculatedCombinedCRC)
      ensures old(Finished(b, w)) ==> ok && Reading() && i == old(i) + 1
    {
      hide Decompressor.Valid, Decompressor.Standing, Decompressor.Agrees, BitReader.Valid, BitReader.Pending,
           RunDecode, Unrle.At, Unrle.Walkable, Rest, Content, Combined, Run, CombineCrc, CrcOf, Within, AllGood, FinalCrc, CrcValue;
      dec.Phases();
      ghost var finished := Finished(b, w);
      if finished {
        StoredCrc(items, i, blockSize100k);
        AtBlock(items, i + 1, pad, dec.st.s);
        NextContent(items, i);
      }
      var crc;
      ok, crc := CheckBlock(b, w);
      if !ok { return; }
      calculatedCombinedCRC := CombineCrc(calculatedCombinedCRC, crc);
      if finished {
        head := dec.st.s;
        i := i + 1;
      }
      dec.NextBlock();
    }

    /** The rest of a round of BZ2_bzDecompress: read on, unless the end is reached. */
    method ReadRound() returns (ret: int, more: bool)
      requires dec.Valid() && Reading()
      modifies this`fast, this`slow, dec, dec.reader, dec.inUse, dec.seqToUnseq, dec.minLens, dec.mtfa, dec.mtfbase, dec.limit, dec.base, dec.perm, dec.selectorMtf, dec.selector, dec.unzftab
      ensures Valid() && (fast == old(fast) || fresh(fast)) && (slow == old(slow) || fresh(slow))
      ensures if more then dec.st.Output? else !dec.st.Output? && ret == (if dec.st.StreamEnd? then STREAM_END else OK)
      ensures !more && ret == OK ==> future != []
      ensures !more ==> !dec.st.Failed? && !dec.st.Stray?
    {
      hide Decompressor.Valid, Decompressor.Standing, Decompressor.Agrees, BitReader.Valid, BitReader.Pending,
           RunDecode, Unrle.At, Unrle.Walkable, Rest, Content, Combined, Run, CombineCrc, Stream, Hands,
           CrcValue, AllGood, Within;
      ReadOn();
      dec.Phases();
      if dec.phase.Ended? {
        ret := CheckStream();
        return ret, false;
      }
      if !dec.phase.Written? { return OK, false; }
      BeginOutput();
      return OK, true;
    }

    /** The first part of a round of BZ2_bzDecompress: write what fits, and check the block when it is done. */
    method WriteRound(avail: nat) returns (ret: int, more: seq<Byte>, stop: bool)
      requires dec.Valid() && Writing(Written())
      modifies `total, `calculatedCombinedCRC, `i, `head, dec, (if fast != null then {fast} else {}), (if slow != null then {slow} else {})
      ensures total == old(total) + more && |more| <= avail
      ensures dec.Valid()
      ensures stop ==> Writing(Written()) && ret == OK && |more| == avail && |total| < |Content(items)|
      ensures !stop ==> Reading() && i == old(i) + 1
    {
      hide Decompressor.Valid, Decompressor.Standing, Decompressor.Agrees, BitReader.Valid, BitReader.Pending,
           Reading, Writing, Rest, Content, Combined, Run, RunDecode, Written, Outputs;
      var corrupt, done;
      corrupt, more, done := WriteOut(avail);
      if corrupt { return DATA_ERROR, more, true; }
      if !done {
        NotAll();
        return OK, more, true;
      }
      AllWritten();
      var ok := FinishBlock(items[i].b, Written());
      return DATA_ERROR, more, !ok;
    }

    /** The loop of BZ2_bzDecompress. */
    method Rounds(room: nat) returns (ret: int, out: seq<Byte>)
      requires Valid() && (dec.st.Running? || dec.st.Output?)
      modifies dec.inUse, dec.seqToUnseq, dec.minLens, dec.mtfa, dec.mtfbase, dec.limit, dec.base, dec.perm, dec.selectorMtf, dec.selector, dec.unzftab
      modifies this, dec, dec.reader, (if fast != null then {fast} else {}), (if slow != null then {slow} else {})
      ensures Valid() && future == old(future) && total == old(total) + out && |out| <= room
      ensures (fast == old(fast) || fresh(fast)) && (slow == old(slow) || fresh(slow))
      ensures ret in {OK, STREAM_END} && (ret == STREAM_END ==> total == Content(items))
      ensures ret == OK && |out| < room ==> future != []
      ensures ret == OK ==> future != [] || |total| < |Content(items)|
    {
      hide Decompressor.Valid, Decompressor.Standing, Decompressor.Agrees, BitReader.Valid, BitReader.Pending,
           Reading, Writing, Ended, Rest, Content, Combined, Run, RunDecode, Written, Outputs;
      out := [];
      while true
        invariant Valid() && future == old(future) && (dec.st.Running? || dec.st.Output?)
        invariant total == old(total) + out && |out| <= room
        invariant (fast == old(fast) || fresh(fast)) && (slow == old(slow) || fresh(slow))
        decreases |items| - i, if dec.st.Running? then 1 else 0
      {
        Phases();
        dec.Phases();
        if dec.phase.Written? {
          var more, stop;
          ret, more, stop := WriteRound(room - |out|);
          out := out + more;
          if stop { return ret, out; }
        }
        var again;
        ret, again := ReadRound();
        Phases();
        if !again { return ret, out; }
      }
    }

    /**
      BZ2_bzDecompress. Over all calls, whatever the portions of input and output, what is written
      is at every moment a prefix of the stream's data; a call falls short of the space it was
      given only when it needs more input or the stream has ended; and the end is reported exactly
      when all has been written and the CRCs have been found right. The answers are OK 0,
      STREAM_END 4, and the sequence error -1.
    */
    method Decompress(chunk: seq<Byte>, room: nat) returns (ret: int, out: seq<Byte>)
      requires Valid() && Unpacked(chunk) <= future
      modifies dec.inUse, dec.seqToUnseq, dec.minLens, dec.mtfa, dec.mtfbase, dec.limit, dec.base, dec.perm, dec.selectorMtf, dec.selector, dec.unzftab
      modifies this, dec, dec.reader, (if fast != null then {fast} else {}), (if slow != null then {slow} else {})
      ensures Valid() && future == old(future)[8 * |chunk|..]
      ensures total == old(total) + out && |out| <= room && total <= Content(items)
      ensures (fast == old(fast) || fresh(fast)) && (slow == old(slow) || fresh(slow))
      ensures ret == 4 ==> total == Content(items)
      ensures ret == 0 && |out| < room ==> future != []
      ensures ret == 0 ==> future != [] || |total| < |Content(items)|
      ensures ret in {0, 4} || (ret == -1 && old(dec.st).StreamEnd?)
    {
      hide Decompressor.Valid, Decompressor.Standing, Decompressor.Agrees, BitReader.Valid, BitReader.Pending,
           Reading, Writing, Ended, Rest, Content, Combined, Run, RunDecode, Written, Outputs;
      Supply(chunk);
      Phases();
      dec.Phases();
      if dec.phase.Ended? {
        TotalPrefix();
        return SEQUENCE_ERROR, [];
      }
      ret, out := Rounds(room);
      TotalPrefix();
    }

    lemma WrittenPrefix(b: seq<Byte>, w: seq<Byte>)
      requires Outputs(b, w)
      ensures w <= RunDecode(b)
    {
      hide Unrle.At, Unrle.Walkable, RunDecode;
      if smallDecompress {
        Unrle.AtDone(slow.c, slow.nblock_used, slow.k0, slow.state_out_ch, slow.state_out_len, slow.written);
      } else {
        Unrle.AtDone(fast.c, fast.nblock_used, fast.k0, fast.state_out_ch, fast.state_out_len, fast.written);
      }
    }

    /** In the middle of a block, not everything has been written. */
    lemma NotAll()
      requires Writing(Written()) && Written() != RunDecode(items[i].b)
      ensures |total| < |Content(items)|
    {
      hide Decompressor.Valid, Decompressor.Standing, Decompressor.Agrees, BitReader.Valid, BitReader.Pending,
           Unrle.At, Unrle.Walkable, RunDecode, Outputs, Rest, Run, Content, Combined, AllGood, Stream;
      ContentPrefix(items, i + 1);
      NextContent(items, i);
      WrittenPrefix(items[i].b, Written());
    }

    lemma TotalPrefix()
      requires Valid()
      ensures total <= Content(items)
    {
      hide Decompressor.Valid, Decompressor.Standing, Decompressor.Agrees, BitReader.Valid, BitReader.Pending,
           Unrle.At, Unrle.Walkable, RunDecode, Outputs, Rest, Run, Content, Combined, AllGood;
      ContentPrefix(items, i);
      if dec.st.Output? {
        ContentPrefix(items, i + 1);
        NextContent(items, i);
        WrittenPrefix(items[i].b, Written());
      }
    }

    lemma Phases()
      requires Valid()
      ensures i <= |items|
      ensures dec.st.Running? ==> Reading()
      ensures dec.st.Output? ==> Writing(Written())
      ensures dec.st.StreamEnd? ==> total == Content(items)
      ensures !dec.st.Failed? && !dec.st.Stray?
    {
      hide Decompressor.Valid, Decompressor.Standing, Decompressor.Agrees, BitReader.Valid, BitReader.Pending,
           Outputs, Rest, Within, Content, Combined, AllGood;
    }
  }

  /** What the compressor emits is a stream this machine reads. */
  lemma Readable(bits: Bits, blockSize100k: int, items: seq<Item>) returns (pad: nat)
    requires S.StreamOf(bits, blockSize100k, items)
    ensures 1 <= blockSize100k <= 9 && AllGood(items, blockSize100k)
    ensures bits == StreamHeader(blockSize100k) + Rest(items, 0, pad)
  {
    hide StreamHeader, ItemsBits, Trailer, AllGood;
    pad :| 0 <= pad < 8 &&
      bits == StreamHeader(blockSize100k) + ItemsBits(items) + Trailer(CrcValue(Combined(0, items))) + Zeros(pad);
    assert items[0..] == items;
    var h, m, t := StreamHeader(blockSize100k), ItemsBits(items), Trailer(CrcValue(Combined(0, items)));
    assert h + m + t + Zeros(pad) == h + (m + t + Zeros(pad));
  }
}
