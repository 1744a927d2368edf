/**
  The compressor's stream machine (dep/bzip2/bzlib.c, lines 114-464): copying input into blocks,
  cutting blocks, draining compressed bytes through the caller's buffers, and the mode switch of
  BZ2_bzCompress; with the parts of BZ2_compressBlock (dep/bzip2/compress.c, lines 602-667) that
  open and close the stream.
*/
module Stream {
  import opened Common
  import opened BitIO
  import opened RunLength
  import opened Rotation
  import ME = MtfEncoder
  import opened BlockWriter
  import opened StreamFormat
  import opened OutputBound
  import CompressBlock
  import BlockSort
  import WholeBlock

  datatype Mode = Idle | Active | Flushing | Finishing
  datatype Phase = Input | Output
  datatype Action = Run | Flush | Finish | Other

  const RUN_OK := 1
  const FLUSH_OK := 2
  const FINISH_OK := 3
  const STREAM_END := 4
  const SEQUENCE_ERROR := -1
  const PARAM_ERROR := -2

  /** The bits produced so far are those of the blocks so far. */
  ghost predicate Carries(bits: Bits, blockSize100k: int, headed: bool, items: seq<Item>) {
    && 1 <= blockSize100k <= 9 && AllGood(items, blockSize100k)
    && if headed then bits == StreamHeader(blockSize100k) + ItemsBits(items) else bits == [] && items == []
  }

  /** A complete stream: header, blocks, trailer, and padding to a whole byte. */
  ghost predicate StreamOf(bits: Bits, blockSize100k: int, items: seq<Item>) {
    && 1 <= blockSize100k <= 9 && AllGood(items, blockSize100k)
    && exists pad :: 0 <= pad < 8 &&
         bits == StreamHeader(blockSize100k) + ItemsBits(items) + Trailer(CrcValue(Combined(0, items))) + Zeros(pad)
  }

  lemma CarriesNext(bits: Bits, blockSize100k: int, items: seq<Item>, i: Item)
    requires Carries(bits, blockSize100k, true, items) && Good(i, blockSize100k)
    ensures Carries(bits + ItemBits(i), blockSize100k, true, items + [i])
  {
    hide Good, ItemBits, StreamHeader;
    ItemsAppend(items, i);
    assert bits + ItemBits(i) == StreamHeader(blockSize100k) + (ItemsBits(items) + ItemBits(i));
  }

  lemma CarriesNothing(blockSize100k: int)
    requires 1 <= blockSize100k <= 9
    ensures Carries(Unpacked([]) + [], blockSize100k, false, [])
  {
  }

  lemma CarriesHeader(bits: Bits, blockSize100k: int, items: seq<Item>)
    requires Carries(bits, blockSize100k, false, items)
    ensures Carries(bits + StreamHeader(blockSize100k), blockSize100k, true, items)
  {
    assert bits + StreamHeader(blockSize100k) == StreamHeader(blockSize100k) + ItemsBits([]);
  }

  lemma Closes(bits: Bits, blockSize100k: int, items: seq<Item>, pad: nat)
    requires Carries(bits, blockSize100k, true, items) && pad < 8
    ensures StreamOf(bits + Trailer(CrcValue(Combined(0, items))) + Zeros(pad), blockSize100k, items)
  {
  }

  class EState {
    const blockSize100k: int
    const workFactor: int
    const nblockMAX: int
    const buf: BlockBuffer
    const w: BitWriter
    var mode: Mode
    var state: Phase
    var avail_in_expect: int
    var blockNo: int
    var combinedCRC: Crc
    var state_out_pos: int
    // the caller's buffers
    var next_in: seq<Byte>
    var avail_out: nat
    var next_out: seq<Byte>

    ghost var items: seq<Item>       // the blocks compressed so far
    ghost var consumed: seq<Byte>    // all input taken so far
    ghost var earlier: seq<Byte>     // the output of blocks already drained
    ghost var ended: bool            // the trailer has been written
    ghost var flushed: bool          // a flush has been asked for

    /** All output delivered so far. */
    ghost function Emitted(): seq<Byte>
      reads this, w
    {
      if 0 <= state_out_pos <= |w.zbits| then earlier + w.zbits[..state_out_pos] else earlier
    }

    ghost predicate Sized()
      reads this
    {
      1 <= blockSize100k <= 9 && buf.size == 100000 * blockSize100k && nblockMAX == 100000 * blockSize100k - 19
    }

    /** The parts that hold in every state. */
    ghost predicate Base()
      reads this, buf, buf.block, buf.inUse, w
    {
      && Sized() && buf.Valid() && 0 <= state_out_pos <= |w.zbits| && blockNo >= 1 && avail_in_expect >= 0
      && combinedCRC == Combined(0, items) && (mode == Flushing ==> flushed)
    }

    /** Only a flush cuts a block that is not full, before the last. */
    ghost predicate Few(closing: bool)
      reads `items, `flushed
    {
      flushed || Thick(items, blockSize100k, closing)
    }

    /** While input is being collected: everything consumed is in a block, in the buffer, or in the pending run. */
    ghost predicate Collecting()
      reads this, buf, buf.block, buf.inUse, w
    {
      && Base() && w.Valid() && !ended && state_out_pos == 0 && w.zbits == []
      && consumed == Content(items) + buf.Folded() && Few(false)
      && Carries(Unpacked(earlier) + w.Contents(), blockSize100k, blockNo > 1, items)
    }

    /** The block can take a byte. */
    ghost predicate Open()
      reads this, buf
    {
      buf.nblock < nblockMAX && (buf.state_in_ch == 256 ==> buf.nblock == 0)
    }

    /** While output is being drained: the buffered block is among the compressed ones. */
    ghost predicate Draining()
      reads this, buf, buf.block, buf.inUse, w
    {
      && Base() && consumed == Content(items) + buf.Pending() && Few(ended)
      && buf.nblock + |w.zbits| <= 4 * (100000 * blockSize100k + N_OVERSHOOT)
      && (if ended then StreamOf(Unpacked(earlier) + Unpacked(w.zbits), blockSize100k, items)
          else w.Valid() && Carries(Unpacked(earlier) + w.Contents(), blockSize100k, true, items))
      && (ended ==> mode in {Finishing, Idle} && avail_in_expect == 0 && buf.Pending() == [])
      && (buf.Pending() == [] ==> ended || (mode == Flushing && avail_in_expect == 0))
    }

    ghost predicate Sound()
      reads this, buf, buf.block, buf.inUse, w
    {
      && (state == Input ==> Collecting() && Open())
      && (state == Output ==> Draining())
      && (mode == Idle ==> state == Output && ended && state_out_pos == |w.zbits|)
    }

    /** Between calls, what is being drained is never empty before the end. */
    ghost predicate Valid()
      reads this, buf, buf.block, buf.inUse, w
    {
      Sound() && (state == Output && mode != Idle ==> state_out_pos < |w.zbits|)
    }

    /** isempty_RL. */
    predicate EmptyRL()
      reads this, buf
    {
      !(buf.state_in_ch < 256 && buf.state_in_len > 0)
    }

    /** BZ2_bzCompressInit. */
    constructor (blockSize100k: int, workFactor: int)
      requires 1 <= blockSize100k <= 9
      ensures Valid() && mode == Active && state == Input && consumed == [] && Emitted() == [] && fresh(buf) && fresh(w)
      ensures fresh(buf.block) && fresh(buf.inUse)
      ensures this.blockSize100k == blockSize100k && !flushed
    {
      hide Valid, Emitted, Carries, StreamOf, Unpacked, BlockBuffer.Valid, RunDecode, StreamHeader, ItemsBits, Draining;
      this.blockSize100k := blockSize100k;
      this.workFactor := workFactor;
      nblockMAX := 100000 * blockSize100k - 19;
      buf := new BlockBuffer(100000 * blockSize100k);
      w := new BitWriter();
      mode := Active;
      state := Input;
      avail_in_expect := 0;
      blockNo := 1;
      combinedCRC := 0;
      state_out_pos := 0;
      next_in, avail_out, next_out := [], 0, [];
      items, consumed, earlier, ended, flushed := [], [], [], false, false;
      new;
      StartsValid();
    }

    /** All fields are as at the start. */
    ghost predicate Blank()
      reads this, buf, buf.block, buf.inUse, w
    {
      && Sized() && buf.Valid() && buf.nblock == 0 && buf.Pending() == [] && buf.state_in_ch == 256
      && w.Valid() && w.zbits == [] && w.Contents() == []
      && mode == Active && state == Input && avail_in_expect == 0 && blockNo == 1 && combinedCRC == 0 && state_out_pos == 0
      && items == [] && consumed == [] && earlier == [] && !ended && !flushed
    }

    lemma StartsValid()
      requires Blank()
      ensures Valid() && Emitted() == []
    {
      hide Carries, StreamOf, Unpacked, BlockBuffer.Valid, RunDecode, StreamHeader, ItemsBits, Draining;
      EmptyData();
      assert Content(items) + buf.Pending() == [];
      CarriesNothing(blockSize100k);
    }

    /** The block part of BZ2_compressBlock. */
    method SendBlock() returns (ghost i: Item)
      requires Sized() && buf.Valid() && buf.nblock > 0 && w.Valid()
      modifies w
      ensures Good(i, blockSize100k) && i.b == buf.block[..buf.nblock]
      ensures w.Valid() && w.Contents() == old(w.Contents()) + ItemBits(i)
    {
      hide RunDecode, CrcFrom, Separate, ReadAll, Good, ItemBits, MarksExactly, BitWriter.Contents, Complete;
      var block := CopyBlock(buf.block, buf.nblock);
      i := SortAndSend(w, block, buf.inUse, FinalCrc(buf.blockCRC), workFactor, blockSize100k);
    }

    /** The four header bytes of the stream. */
    method PutStreamHeader()
      requires 1 <= blockSize100k <= 9 && w.Valid()
      modifies w
      ensures w.Valid() && w.Contents() == old(w.Contents()) + StreamHeader(blockSize100k)
    {
      hide BitsOf;
      PutUChar(w, 0x42);
      PutUChar(w, 0x5a);
      PutUChar(w, 0x68);
      PutUChar(w, 0x30 + blockSize100k);
    }

    method PutEndMark()
      requires w.Valid()
      modifies w
      ensures w.Valid() && w.Contents() == old(w.Contents()) + EndBits(1)
    {
      hide BitsOf, EndBits, BitWriter.Contents, BitWriter.Valid;
      EndMark();
      PutUChar(w, 0x17);
      PutUChar(w, 0x72);
      PutUChar(w, 0x45);
      PutUChar(w, 0x38);
      PutUChar(w, 0x50);
      PutUChar(w, 0x90);
    }

    /** The end mark, the combined CRC, and the last bits. */
    method PutTrailer() returns (ghost pad: nat)
      requires w.Valid()
      modifies w
      ensures w.bsLive <= 0 && pad < 8
      ensures Unpacked(w.zbits) == old(w.Contents()) + Trailer(CrcValue(combinedCRC)) + Zeros(pad)
    {
      hide BitsOf, Unpacked, EndBits, BitWriter.Contents, BitWriter.Valid;
      ghost var c := w.Contents();
      PutEndMark();
      Pow32();
      PutUInt32(w, CrcValue(combinedCRC));
      assert w.Contents() == c + Trailer(CrcValue(combinedCRC));
      w.Finish();
      pad :| 0 <= pad < 8 && Unpacked(w.zbits) == c + Trailer(CrcValue(combinedCRC)) + Zeros(pad);
    }

    /** The stream header, if this is the first block. */
    method OpenStream()
      requires Sized() && w.Valid() && Carries(Unpacked(earlier) + w.Contents(), blockSize100k, blockNo > 1, items) && blockNo >= 1
      modifies w
      ensures w.Valid() && Carries(Unpacked(earlier) + w.Contents(), blockSize100k, true, items)
      ensures |w.Contents()| <= |old(w.Contents())| + 32
    {
      hide StreamHeader, Carries, Unpacked, BitWriter.Contents, BitWriter.Valid;
      if blockNo == 1 {
        ghost var e, c := Unpacked(earlier), w.Contents();
        PutStreamHeader();
        CarriesHeader(e + c, blockSize100k, items);
        assert (e + c) + StreamHeader(blockSize100k) == e + (c + StreamHeader(blockSize100k));
        HeaderLength();
      }
    }

    lemma HeaderLength()
      requires 1 <= blockSize100k <= 9
      ensures |StreamHeader(blockSize100k)| == 32
    {
    }

    /** The block, with its place in the combined CRC. */
    method AppendBlock()
      requires Base() && w.Valid() && Carries(Unpacked(earlier) + w.Contents(), blockSize100k, true, items)
      requires buf.nblock > 0 && consumed == Content(items) + buf.Folded() && Few(false)
      modifies `items, `combinedCRC, w
      ensures Sized() && w.Valid() && Carries(Unpacked(earlier) + w.Contents(), blockSize100k, true, items)
      ensures combinedCRC == Combined(0, items) && |w.Contents()| <= |old(w.Contents())| + 18 * buf.nblock + FIXED_BITS
      ensures consumed == Content(items) + buf.Pending() && Few(true) && (buf.nblock >= nblockMAX ==> Few(false))
    {
      hide Good, ItemBits, Combined, Content, Carries, Unpacked, BitWriter.Contents, RunDecode, BitWriter.Valid, BlockBuffer.Valid, Thick;
      ghost var e, c, before := Unpacked(earlier), w.Contents(), items;
      combinedCRC := CombineCrc(combinedCRC, FinalCrc(buf.blockCRC));
      ghost var crc := buf.blockCRC;
      DataCrcKnown();
      ghost var i := SendBlock();
      CarriesNext(e + c, blockSize100k, items, i);
      assert (e + c) + ItemBits(i) == e + (c + ItemBits(i));
      CombinedAppend(0, items, i);
      ContentAppend(items, i);
      ItemSize(i, blockSize100k);
      if !flushed { ThickNext(items, i, blockSize100k); }
      items := items + [i];
      assert Content(before) + (buf.Data() + buf.Pending()) == (Content(before) + buf.Data()) + buf.Pending();
    }

    lemma DataCrcKnown()
      requires buf.Valid()
      ensures 0 <= buf.nblock <= buf.block.Length && FinalCrc(buf.blockCRC) == DataCrc(buf.block[..buf.nblock])
    {
    }

    lemma EmptyData()
      requires buf.Valid() && buf.nblock == 0
      ensures buf.Folded() == buf.Pending()
    {
      assert buf.block[..buf.nblock] == [];
      assert [] + buf.Pending() == buf.Pending();
    }

    /** The first part of BZ2_compressBlock: the stream header, if due, and the block, if there is one. */
    method SendPending()
      requires Collecting()
      modifies `items, `combinedCRC, w
      ensures Base() && w.Valid() && Carries(Unpacked(earlier) + w.Contents(), blockSize100k, true, items)
      ensures consumed == Content(items) + buf.Pending()
      ensures Few(true) && (flushed || buf.nblock >= nblockMAX ==> Few(false))
      ensures |w.Contents()| <= 18 * buf.nblock + FIXED_BITS + 64
    {
      hide Carries, Content, Combined, Unpacked, BitWriter.Contents, BitWriter.Valid, BlockBuffer.Valid, RunDecode, Thick;
      NonNegativeBlock();
      LiveBits();
      FewMore();
      OpenStream();
      if buf.nblock > 0 {
        AppendBlock();
      } else {
        EmptyData();
      }
    }

    /** With no whole byte waiting. */
    lemma LiveBits()
      requires w.Valid() && w.zbits == []
      ensures |w.Contents()| <= 32
    {
    }

    lemma FewMore()
      requires Few(false)
      ensures Few(true)
    {
    }

    /** The last part of BZ2_compressBlock. */
    method CloseStream()
      requires w.Valid() && Carries(Unpacked(earlier) + w.Contents(), blockSize100k, true, items)
      requires combinedCRC == Combined(0, items)
      modifies `ended, w
      ensures ended && StreamOf(Unpacked(earlier) + Unpacked(w.zbits), blockSize100k, items) && w.zbits != []
      ensures 8 * |w.zbits| <= |old(w.Contents())| + 87
    {
      hide Carries, StreamOf, Combined, Unpacked, BitWriter.Contents, BitWriter.Valid, Trailer;
      ghost var e, c := Unpacked(earlier), w.Contents();
      ghost var pad := PutTrailer();
      ended := true;
      Closes(e + c, blockSize100k, items, pad);
      SomeBits(CrcValue(Combined(0, items)));
      ghost var t := Trailer(CrcValue(Combined(0, items)));
      assert (e + c) + t + Zeros(pad) == e + (c + t + Zeros(pad));
    }

    lemma SomeBits(crc: nat)
      ensures |Trailer(crc)| == 80 && Unpacked([]) == []
    {
      assert |EndBits(7)| == 0;
      assert |EndBits(4)| == 24;
    }

    /** BZ2_compressBlock; the machine is about to drain its output. */
    method CompressBlock(is_last_block: bool)
      requires state == Input && Collecting()
      requires is_last_block ==> mode == Finishing && avail_in_expect == 0 && buf.Pending() == []
      requires buf.Pending() == [] ==> is_last_block || (mode == Flushing && avail_in_expect == 0)
      requires is_last_block || flushed || buf.nblock >= nblockMAX
      modifies `items, `combinedCRC, `ended, w
      ensures Draining() && (is_last_block ==> w.zbits != [])
    {
      hide Carries, StreamOf, Content, Combined, Unpacked, BitWriter.Contents, BitWriter.Valid, BlockBuffer.Valid, RunDecode, Few;
      NonNegativeBlock();
      SendPending();
      WholeBytes();
      if is_last_block { CloseStream(); }
      BlockRoom(buf.nblock, |w.zbits|, blockSize100k);
    }

    lemma WholeBytes()
      requires w.Valid()
      ensures 8 * |w.zbits| <= |w.Contents()|
    {
    }

    lemma NonNegativeBlock()
      requires buf.Valid()
      ensures 0 <= buf.nblock <= buf.block.Length == buf.size
    {
    }

    /** prepare_new_block, and back to collecting input. */
    method PrepareNewBlock()
      requires state == Output && Draining() && !ended && state_out_pos == |w.zbits|
      modifies `earlier, `blockNo, `state_out_pos, w`zbits, buf, buf.inUse
      ensures Collecting() && buf.nblock == 0 && buf.Pending() == old(buf.Pending())
      ensures Emitted() == old(Emitted())
    {
      hide Carries, StreamOf, Content, Combined, BlockBuffer.Valid, RunDecode, Unpacked;
      ghost var p, z, e := buf.Pending(), w.zbits, earlier;
      assert w.zbits[..state_out_pos] == w.zbits;
      earlier := earlier + w.zbits;
      w.zbits := [];
      state_out_pos := 0;
      buf.Clear();
      blockNo := blockNo + 1;
      UnpackedConcat(e, z);
      NoBits();
      assert [] + p == p;
      assert earlier + [] == earlier;
      ghost var live := w.bsBuff[..w.bsLive];
      assert (Unpacked(e) + Unpacked(z)) + ([] + live) == Unpacked(e) + (Unpacked(z) + live);
    }

    lemma NoBits()
      ensures Unpacked([]) == []
    {
    }

    // ----- input and output -----

    /** One byte of input goes into the block. */
    method TakeInput()
      requires state == Input && Collecting() && Open() && next_in != []
      modifies `next_in, `consumed, buf, buf.block, buf.inUse
      ensures Collecting() && buf.nblock <= nblockMAX + 4 && buf.Pending() != [] && buf.state_in_ch < 256
      ensures next_in == old(next_in)[1..] && consumed == old(consumed) + [old(next_in)[0]]
    {
      hide Carries, Content, Combined, Unpacked, BitWriter.Contents, BitWriter.Valid, BlockBuffer.Valid, RunDecode;
      NonNegativeBlock();
      ghost var f := buf.Folded();
      buf.AddChar(next_in[0]);
      NonNegativeBlock();
      assert Content(items) + (f + [next_in[0]]) == (Content(items) + f) + [next_in[0]];
      consumed := consumed + [next_in[0]];
      next_in := next_in[1..];
    }

    /** The same while flushing or finishing, where the bytes still expected are counted. */
    method TakeExpected()
      requires state == Input && Collecting() && Open() && next_in != [] && avail_in_expect == |next_in|
      modifies `next_in, `consumed, `avail_in_expect, buf, buf.block, buf.inUse
      ensures Collecting() && buf.nblock <= nblockMAX + 4 && buf.Pending() != [] && buf.state_in_ch < 256
      ensures next_in == old(next_in)[1..] && consumed == old(consumed) + [old(next_in)[0]]
      ensures avail_in_expect == |next_in|
    {
      hide Carries, Content, Combined, Unpacked, BitWriter.Contents, BitWriter.Valid, BlockBuffer.Valid, RunDecode;
      TakeInput();
      avail_in_expect := avail_in_expect - 1;
    }

    /** copy_input_until_stop. */
    method CopyInput() returns (progress_in: bool)
      requires state == Input && Collecting() && Open()
      requires mode != Active ==> avail_in_expect == |next_in|
      modifies `next_in, `consumed, `avail_in_expect, buf, buf.block, buf.inUse
      ensures Collecting() && consumed + next_in == old(consumed + next_in)
      ensures mode != Active ==> avail_in_expect == |next_in|
      ensures progress_in <==> |next_in| < |old(next_in)|
      ensures |next_in| <= |old(next_in)| && (buf.nblock >= nblockMAX ==> progress_in && buf.Pending() != [])
      ensures buf.nblock >= nblockMAX || next_in == [] || (mode != Active && avail_in_expect == 0)
      ensures buf.nblock <= nblockMAX + 4 && (buf.nblock < nblockMAX ==> Open())
    {
      hide Collecting;
      progress_in := false;
      if mode == Active {
        while true
          invariant Collecting() && consumed + next_in == old(consumed + next_in) && (buf.nblock < nblockMAX ==> Open())
          invariant buf.nblock <= nblockMAX + 4 && |next_in| <= |old(next_in)| && (progress_in <==> |next_in| < |old(next_in)|)
          invariant buf.nblock >= nblockMAX ==> progress_in && buf.Pending() != []
          invariant mode == old(mode) && avail_in_expect == old(avail_in_expect)
          decreases |next_in|
        {
          if buf.nblock >= nblockMAX { break; }
          if |next_in| == 0 { break; }
          progress_in := true;
          TakeInput();
        }
      } else {
        while true
          invariant Collecting() && consumed + next_in == old(consumed + next_in) && (buf.nblock < nblockMAX ==> Open())
          invariant buf.nblock <= nblockMAX + 4 && |next_in| <= |old(next_in)| && (progress_in <==> |next_in| < |old(next_in)|)
          invariant buf.nblock >= nblockMAX ==> progress_in && buf.Pending() != []
          invariant avail_in_expect == |next_in|
          decreases |next_in|
        {
          if buf.nblock >= nblockMAX { break; }
          if |next_in| == 0 { break; }
          if avail_in_expect == 0 { break; }
          progress_in := true;
          TakeExpected();
        }
      }
    }

    /** copy_output_until_stop. */
    method CopyOutput(ghost base: seq<Byte>) returns (progress_out: bool)
      requires state == Output && Draining() && Emitted() == base + next_out
      modifies `state_out_pos, `avail_out, `next_out
      ensures Draining() && Emitted() == base + next_out && avail_out + |next_out| == old(avail_out + |next_out|)
      ensures avail_out == 0 || state_out_pos == |w.zbits|
      ensures |next_out| >= |old(next_out)| && (progress_out <==> |next_out| > |old(next_out)|)
      ensures progress_out <==> old(avail_out > 0 && state_out_pos < |w.zbits|)
      ensures !progress_out ==> state_out_pos == old(state_out_pos)
    {
      hide Carries, StreamOf, Content, Combined, Unpacked, BitWriter.Contents, BitWriter.Valid, BlockBuffer.Valid;
      progress_out := false;
      while true
        invariant Draining() && Emitted() == base + next_out && |next_out| >= |old(next_out)|
        invariant avail_out + |next_out| == old(avail_out + |next_out|)
        invariant progress_out <==> |next_out| > |old(next_out)|
        invariant if progress_out then old(avail_out > 0 && state_out_pos < |w.zbits|)
                  else avail_out == old(avail_out) && state_out_pos == old(state_out_pos)
        decreases avail_out
      {
        if avail_out == 0 { break; }
        if state_out_pos >= |w.zbits| { break; }
        progress_out := true;
        assert w.zbits[..state_out_pos + 1] == w.zbits[..state_out_pos] + [w.zbits[state_out_pos]];
        assert Emitted() + [w.zbits[state_out_pos]] == base + (next_out + [w.zbits[state_out_pos]]);
        next_out := next_out + [w.zbits[state_out_pos]];
        state_out_pos := state_out_pos + 1;
        avail_out := avail_out - 1;
      }
    }

    // ----- handle_compress -----

    lemma EmptyPending()
      requires buf.Valid()
      ensures EmptyRL() <==> buf.Pending() == []
    {
    }

    /** Where a flush or finish leaves the machine: still draining, or through. */
    predicate Stopped()
      reads this, w, buf
    {
      && (mode == Finishing ==> state == Output)
      && (mode == Flushing ==> (state == Input && buf.nblock == 0) || state_out_pos < |w.zbits|)
    }

    /** Finishing, and no input is left or pending. */
    ghost predicate AtEnd()
      reads `mode, `avail_in_expect, buf
    {
      mode == Finishing && avail_in_expect == 0 && buf.Pending() == []
    }

    /** No compressed byte is waiting. */
    predicate Drained()
      reads this, w
    {
      state == Input || state_out_pos == |w.zbits|
    }

    /** The draining half of one round of handle_compress. */
    method OutputStep(ghost base: seq<Byte>) returns (stop: bool, progress_out: bool)
      requires state == Output && Draining() && mode != Idle && Emitted() == base + next_out
      modifies this, w, buf, buf.inUse
      ensures Emitted() == base + next_out && avail_out + |next_out| == old(avail_out + |next_out|)
      ensures next_in == old(next_in) && consumed == old(consumed) && mode == old(mode) && avail_in_expect == old(avail_in_expect)
      ensures flushed == old(flushed)
      ensures stop ==> Stopped() && (avail_out == 0 || Drained())
      ensures stop ==> Sound() && (avail_out == 0 || (mode != Active && avail_in_expect == 0 && buf.Pending() == []))
      ensures old(state_out_pos < |w.zbits|) ==> (progress_out <==> old(avail_out) > 0) && (stop || progress_out)
      ensures stop && state == Output ==> state_out_pos < |w.zbits| || (AtEnd() && (progress_out || old(state_out_pos == |w.zbits|)))
      ensures !stop ==> state == Input && Collecting() && Open() && buf.Pending() != [] && old(buf.Pending()) != []
      ensures |next_out| >= |old(next_out)| && (progress_out <==> |next_out| > |old(next_out)|)
    {
      hide Carries, StreamOf, Content, Combined, Unpacked, BitWriter.Contents, BitWriter.Valid, BlockBuffer.Valid, RunDecode;
      progress_out := CopyOutput(base);
      if state_out_pos < |w.zbits| { return true, progress_out; }
      EmptyPending();
      if mode == Finishing && avail_in_expect == 0 && EmptyRL() { return true, progress_out; }
      stop := Reopen();
    }

    /** Everything is drained: collecting goes on, unless a flush is through. */
    method Reopen() returns (stop: bool)
      requires state == Output && Draining() && !ended && state_out_pos == |w.zbits| && mode in {Active, Flushing, Finishing}
      modifies `state, `earlier, `blockNo, `state_out_pos, w`zbits, buf, buf.inUse
      ensures state == Input && Collecting() && Open() && buf.Pending() == old(buf.Pending()) && Emitted() == old(Emitted())
      ensures stop <==> mode == Flushing && avail_in_expect == 0 && buf.Pending() == []
      ensures buf.nblock == 0
      ensures !stop ==> buf.Pending() != []
    {
      hide Carries, StreamOf, Content, Combined, Unpacked, BitWriter.Contents, BitWriter.Valid, BlockBuffer.Valid, RunDecode;
      PrepareNewBlock();
      state := Input;
      EmptyPending();
      stop := mode == Flushing && avail_in_expect == 0 && EmptyRL();
    }

    /** flush_RL, then the block, which is the last one when finishing. */
    method CutAndFlush()
      requires state == Input && Collecting() && buf.nblock <= nblockMAX + 4
      requires mode in {Flushing, Finishing} && avail_in_expect == 0
      modifies this, w, buf, buf.block, buf.inUse
      ensures state == Output && Draining() && buf.Pending() == [] && state_out_pos == 0
      ensures mode == Finishing ==> state_out_pos < |w.zbits|
      ensures earlier == old(earlier) && next_in == old(next_in) && consumed == old(consumed)
      ensures mode == old(mode) && avail_in_expect == 0 && next_out == old(next_out) && avail_out == old(avail_out)
      ensures flushed == old(flushed)
    {
      hide Carries, StreamOf, Content, Combined, Unpacked, BitWriter.Contents, BitWriter.Valid, BlockBuffer.Valid, RunDecode;
      NonNegativeBlock();
      buf.Flush();
      NonNegativeBlock();
      assert buf.Data() + [] == buf.Data();
      CompressBlock(mode == Finishing);
      state := Output;
    }

    /** The collecting half of one round of handle_compress. */
    method InputStep() returns (stop: bool, progress_in: bool)
      requires state == Input && Collecting() && Open() && mode != Idle
      requires mode != Active ==> avail_in_expect == |next_in|
      modifies this, w, buf, buf.block, buf.inUse
      ensures consumed + next_in == old(consumed + next_in) && Emitted() == old(Emitted())
      ensures mode == old(mode) && next_out == old(next_out) && avail_out == old(avail_out) && flushed == old(flushed)
      ensures mode != Active ==> avail_in_expect == |next_in|
      ensures |next_in| <= |old(next_in)| && (progress_in <==> |next_in| < |old(next_in)|)
      ensures old(next_in) != [] ==> progress_in
      ensures stop ==> Sound() && mode == Active && next_in == [] && state == Input
      ensures !stop ==> state == Output && Draining() && (progress_in || (mode != Active && buf.Pending() == []))
      ensures !stop && mode == Finishing && !progress_in ==> state_out_pos < |w.zbits|
    {
      hide Carries, StreamOf, Content, Combined, Unpacked, BitWriter.Contents, BitWriter.Valid, BlockBuffer.Valid, RunDecode;
      progress_in := CopyInput();
      if mode != Active && avail_in_expect == 0 {
        CutAndFlush();
        stop := false;
      } else if buf.nblock >= nblockMAX {
        CompressBlock(false);
        state := Output;
        stop := false;
      } else {
        stop := true;
      }
    }

    /**
      What handle_compress can tell of its progress, given the state, input and room it began with.
      With something to drain everything turns on the room; without, on the input, except that
      finishing also ends by itself.
    */
    ghost predicate Account(state0: Phase, input: seq<Byte>, progress_in: bool, progress_out: bool)
      reads `state, `mode, `state_out_pos, w
    {
      && (state0 == Output ==> progress_out || (state == Output && state_out_pos < |w.zbits| && !progress_in))
      && (state0 == Input && input != [] ==> state == Input || progress_in)
      && (state0 == Input && input == [] ==> !progress_in)
      && (state0 == Input && input == [] && mode == Active ==> state == Input && !progress_out)
      && (state == Output && mode == Finishing ==> progress_in || progress_out || state_out_pos < |w.zbits|)
    }

    /** When there is progress, unless flushing. */
    ghost predicate Moves(state0: Phase, input: seq<Byte>, room: nat)
      reads `mode
    {
      if state0 == Output then room > 0 else input != [] || (mode == Finishing && room > 0)
    }

    /** handle_compress. */
    method HandleCompress() returns (progress: bool)
      requires Valid() && mode != Idle && next_out == []
      requires mode != Active ==> avail_in_expect == |next_in|
      modifies this, w, buf, buf.block, buf.inUse
      ensures Sound() && mode == old(mode) && Stopped() && flushed == old(flushed)
      ensures state == Output ==> state_out_pos < |w.zbits| || (AtEnd() && progress)
      ensures consumed + next_in == old(consumed + next_in) && Emitted() == old(Emitted()) + next_out
      ensures avail_out + |next_out| == old(avail_out) && |next_in| <= |old(next_in)|
      ensures mode != Active ==> avail_in_expect == |next_in|
      ensures progress <==> |next_in| < |old(next_in)| || next_out != []
      ensures avail_out == 0 || (next_in == [] && (mode != Active ==> buf.Pending() == []) && Drained())
      ensures mode != Flushing ==> (progress <==> Moves(old(state), old(next_in), old(avail_out)))
    {
      hide Sound, Collecting, Draining, Emitted, Open;
      var progress_in, progress_out := false, false;
      ghost var base := Emitted();
      Parts();
      assert base + [] == base;
      while true
        invariant (state == Input && Collecting() && Open()) || (state == Output && Draining())
        invariant mode == old(mode) && flushed == old(flushed)
        invariant consumed + next_in == old(consumed + next_in) && Emitted() == base + next_out
        invariant avail_out + |next_out| == old(avail_out)
        invariant mode != Active ==> avail_in_expect == |next_in|
        invariant |next_in| <= |old(next_in)|
        invariant progress_in <==> |next_in| < |old(next_in)|
        invariant progress_out <==> next_out != []
        invariant Account(old(state), old(next_in), progress_in, progress_out)
        decreases |next_in|, if state == Output && buf.Pending() == [] then 0 else 1
      {
        var stop, p;
        if state == Output {
          stop, p := OutputStep(base);
          progress_out := progress_out || p;
          if stop { break; }
        }
        stop, p := InputStep();
        progress_in := progress_in || p;
        if stop { break; }
      }
      progress := progress_in || progress_out;
    }

    lemma Parts()
      requires Valid()
      ensures (state == Input && Collecting() && Open()) || (state == Output && Draining())
    {
    }

    // ----- BZ2_bzCompress -----

    /** The caller's part: a portion of input and some room for output. */
    method SetBuffers(input: seq<Byte>, room: nat)
      requires Valid()
      modifies `next_in, `avail_out, `next_out
      ensures Valid() && next_in == input && avail_out == room && next_out == [] && Emitted() == old(Emitted())
    {
      hide Carries, StreamOf, Content, Combined, Unpacked, BitWriter.Contents, BitWriter.Valid, BlockBuffer.Valid;
      next_in, avail_out, next_out := input, room, [];
    }

    /** The case BZ_M_FLUSHING. */
    method FlushCase() returns (ret: int)
      requires Valid() && mode == Flushing && avail_in_expect == |next_in| && next_out == []
      modifies this, w, buf, buf.block, buf.inUse
      ensures Valid() && ret == (if mode == Active then RUN_OK else FLUSH_OK) && mode in {Flushing, Active} && flushed
      ensures if mode == Active then next_in == [] && Content(items) == consumed else avail_out == 0
      ensures consumed + next_in == old(consumed + next_in) && Emitted() == old(Emitted()) + next_out
      ensures avail_out + |next_out| == old(avail_out) && |next_in| <= |old(next_in)|
    {
      hide Carries, StreamOf, Content, Combined, Unpacked, BitWriter.Contents, BitWriter.Valid, BlockBuffer.Valid;
      var progress := HandleCompress();
      EmptyPending();
      if avail_in_expect > 0 || !EmptyRL() || state_out_pos < |w.zbits| { return FLUSH_OK; }
      EmptyData();
      assert Content(items) + [] == Content(items);
      mode := Active;
      return RUN_OK;
    }

    /** The case BZ_M_FINISHING. */
    method FinishCase() returns (ret: int)
      requires Valid() && mode == Finishing && avail_in_expect == |next_in| && next_out == []
      modifies this, w, buf, buf.block, buf.inUse
      ensures Valid() && mode in {Finishing, Idle} && (ret == STREAM_END <==> mode == Idle) && flushed == old(flushed)
      ensures ret in {STREAM_END, FINISH_OK, SEQUENCE_ERROR} && (ret == FINISH_OK ==> avail_out == 0)
      ensures ret == STREAM_END ==> next_in == []
      ensures ret == SEQUENCE_ERROR <==> |next_in| == |old(next_in)| && next_out == []
      ensures ret == SEQUENCE_ERROR <==> old(avail_out == 0 && (state == Output || next_in == []))
      ensures avail_in_expect == |next_in|
      ensures consumed + next_in == old(consumed + next_in) && Emitted() == old(Emitted()) + next_out
      ensures avail_out + |next_out| == old(avail_out) && |next_in| <= |old(next_in)|
    {
      hide Carries, StreamOf, Content, Combined, Unpacked, BitWriter.Contents, BitWriter.Valid, BlockBuffer.Valid;
      var progress := HandleCompress();
      if !progress { return SEQUENCE_ERROR; }
      EmptyPending();
      if avail_in_expect > 0 || !EmptyRL() || state_out_pos < |w.zbits| { return FINISH_OK; }
      mode := Idle;
      return STREAM_END;
    }

    /** Calls that are turned down: after the end, of no known kind, or not what was begun. */
    predicate Refused(action: Action, n: nat)
      reads `mode, `avail_in_expect
    {
      || mode == Idle
      || (mode == Active && action == Other)
      || (mode == Flushing && (action != Flush || n != avail_in_expect))
      || (mode == Finishing && (action != Finish || n != avail_in_expect))
    }

    /** The mode switch; what is left of the input stays in next_in, the output is in next_out. */
    method Switch(action: Action) returns (ret: int)
      requires Valid() && next_out == []
      modifies this, w, buf, buf.block, buf.inUse
      ensures Valid() && (action != Flush ==> flushed == old(flushed))
      ensures consumed + next_in == old(consumed + next_in) && Emitted() == old(Emitted()) + next_out
      ensures avail_out + |next_out| == old(avail_out) && |next_in| <= |old(next_in)|
      ensures ret == STREAM_END <==> old(mode) != Idle && mode == Idle
      ensures ret == STREAM_END ==> next_in == []
      ensures ret == RUN_OK ==> mode == Active && (avail_out == 0 || next_in == [])
      ensures ret == FINISH_OK ==> mode == Finishing && avail_out == 0 && avail_in_expect == |next_in|
      ensures ret == FLUSH_OK ==> mode == Flushing && avail_out == 0
      ensures old(Refused(action, |next_in|)) ==>
                ret == (if old(mode) == Active then PARAM_ERROR else SEQUENCE_ERROR)
                && next_in == old(next_in) && next_out == [] && mode == old(mode)
      ensures old(!Refused(action, |next_in|)) && action == Run ==>
                ret == if |next_in| < |old(next_in)| || next_out != [] then RUN_OK else PARAM_ERROR
      ensures old(!Refused(action, |next_in|)) && action == Flush ==> ret in {RUN_OK, FLUSH_OK}
      ensures old(!Refused(action, |next_in|)) && action == Flush && ret == RUN_OK ==> next_in == [] && Content(items) == consumed
      ensures old(!Refused(action, |next_in|)) && action == Finish ==> ret in {STREAM_END, FINISH_OK, SEQUENCE_ERROR}
      ensures old(!Refused(action, |next_in|)) && action == Run ==>
                (ret == RUN_OK <==> old(if state == Output then avail_out > 0 else next_in != []))
      ensures old(!Refused(action, |next_in|)) && action == Finish ==>
                (ret == SEQUENCE_ERROR <==> |next_in| == |old(next_in)| && next_out == [])
      ensures old(!Refused(action, |next_in|)) && action == Finish ==>
                (ret == SEQUENCE_ERROR <==> old(avail_out == 0 && (state == Output || next_in == [])))
    {
      hide Collecting, Carries, StreamOf, Content, Combined, Unpacked, BitWriter.Contents, BitWriter.Valid, BlockBuffer.Valid;
      if mode == Idle { return SEQUENCE_ERROR; }
      if mode == Active {
        if action == Run {
          var progress := HandleCompress();
          return if progress then RUN_OK else PARAM_ERROR;
        } else if action == Flush || action == Finish {
          Expect(if action == Flush then Flushing else Finishing);
        } else {
          return PARAM_ERROR;
        }
      }
      if mode == Flushing {
        if action != Flush { return SEQUENCE_ERROR; }
        if avail_in_expect != |next_in| { return SEQUENCE_ERROR; }
        ret := FlushCase();
      } else {
        if action != Finish { return SEQUENCE_ERROR; }
        if avail_in_expect != |next_in| { return SEQUENCE_ERROR; }
        ret := FinishCase();
      }
    }

    /** From running to flushing or finishing: all input now at hand is expected. */
    method Expect(to: Mode)
      requires Valid() && mode == Active && to in {Flushing, Finishing}
      modifies `mode, `avail_in_expect, `flushed
      ensures flushed == (to == Flushing || old(flushed))
      ensures Valid() && mode == to && avail_in_expect == |next_in| && Emitted() == old(Emitted())
    {
      hide Carries, StreamOf, Content, Combined, Unpacked, BitWriter.Contents, BitWriter.Valid, BlockBuffer.Valid;
      avail_in_expect := |next_in|;
      mode := to;
      flushed := flushed || to == Flushing;
    }

    /**
      BZ2_bzCompress, for any portion of input, any room for output, and any action. Everything
      consumed is at all times in a compressed block, the current block or the pending run; the
      end of the stream is announced exactly when the trailer has been written and all is drained.
      The answers are RUN_OK 1, FLUSH_OK 2, FINISH_OK 3, STREAM_END 4, and the sequence and
      parameter errors -1 and -2.
    */
    method Compress(action: Action, input: seq<Byte>, room: nat) returns (ret: int, taken: nat, out: seq<Byte>)
      requires Valid()
      modifies this, w, buf, buf.block, buf.inUse
      ensures Valid() && taken <= |input| && consumed == old(consumed) + input[..taken]
      ensures action != Flush ==> flushed == old(flushed)
      ensures Emitted() == old(Emitted()) + out && |out| <= room
      ensures ret == 4 <==> old(mode) != Idle && mode == Idle
      ensures mode == Idle ==> Finished()
      ensures ret == 4 ==> taken == |input|
      ensures ret == 1 ==> |out| == room || taken == |input|
      ensures ret in {2, 3} ==> |out| == room
      ensures ret == 3 ==> avail_in_expect == |input| - taken
      ensures old(Refused(action, |input|)) ==>
                ret == (if old(mode) == Active then -2 else -1) && taken == 0 && out == [] && mode == old(mode)
      ensures old(!Refused(action, |input|)) && action == Run ==> ret == if taken > 0 || out != [] then 1 else -2
      ensures old(!Refused(action, |input|)) && action == Flush ==> ret in {1, 2}
      ensures old(!Refused(action, |input|)) && action == Flush && ret == 1 ==> taken == |input| && Content(items) == consumed
      ensures old(!Refused(action, |input|)) && action == Finish ==> ret in {4, 3, -1}
      ensures old(!Refused(action, |input|)) && action == Run ==>
                (ret == 1 <==> if old(state) == Output then room > 0 else input != [])
      ensures old(!Refused(action, |input|)) && action == Finish ==> (ret == -1 <==> taken == 0 && out == [])
      ensures old(!Refused(action, |input|)) && action == Finish ==>
                (ret == -1 <==> room == 0 && (old(state) == Output || input == []))
    {
      hide Collecting, Draining, Carries, StreamOf, Content, Combined, Unpacked, BitWriter.Contents, BitWriter.Valid, BlockBuffer.Valid;
      SetBuffers(input, room);
      ret := Switch(action);
      taken := |input| - |next_in|;
      out := next_out;
      Prefix(old(consumed), input, consumed, next_in);
      IdleFinished();
    }

    lemma IdleFinished()
      requires Valid()
      ensures mode == Idle ==> Finished()
    {
      hide Carries, StreamOf, Content, Combined, Unpacked, BitWriter.Contents, BitWriter.Valid, BlockBuffer.Valid, Finished;
      if mode == Idle { AllDrained(); }
    }

    lemma AllDrained()
      requires Draining() && ended && state_out_pos == |w.zbits|
      ensures Finished()
    {
      hide Carries, StreamOf, Content, Combined, Unpacked, BitWriter.Contents, BitWriter.Valid, BlockBuffer.Valid;
      UnpackedConcat(earlier, w.zbits);
      assert w.zbits[..state_out_pos] == w.zbits;
      assert Content(items) + [] == Content(items);
    }

    /** The bytes emitted are a complete stream, and what it holds is exactly the input. */
    ghost predicate Finished()
      reads this, w
    {
      StreamOf(Unpacked(Emitted()), blockSize100k, items) && Content(items) == consumed
    }
  }

  lemma Prefix(c0: seq<Byte>, input: seq<Byte>, c: seq<Byte>, rest: seq<Byte>)
    requires c + rest == c0 + input && |rest| <= |input|
    ensures c == c0 + input[..|input| - |rest|]
  {
    assert c == (c0 + input)[..|c|];
  }

  lemma EndMark()
    ensures EndBits(1) == BitsOf(8, 0x17) + BitsOf(8, 0x72) + BitsOf(8, 0x45) + BitsOf(8, 0x38) + BitsOf(8, 0x50) + BitsOf(8, 0x90)
  {
    hide BitsOf;
    assert EndBits(7) == [];
    assert EndBits(6) == BitsOf(8, 0x90) + [] == BitsOf(8, 0x90);
    assert EndBits(5) == BitsOf(8, 0x50) + EndBits(6);
    assert EndBits(4) == BitsOf(8, 0x38) + EndBits(5);
    assert EndBits(3) == BitsOf(8, 0x45) + EndBits(4);
    assert EndBits(2) == BitsOf(8, 0x72) + EndBits(3);
  }

  /** The block as an array of its own size. */
  method CopyBlock(a: array<Byte>, n: nat) returns (block: array<Byte>)
    requires n <= a.Length
    ensures fresh(block) && block[..] == a[..n]
  {
    block := new Byte[n];
    forall j | 0 <= j < n { block[j] := a[j]; }
  }

  /** Sort, move-to-front, and everything sent for a block. */
  method SortAndSend(w: BitWriter, block: array<Byte>, inUse: array<bool>, crc: Crc, workFactor: int,
                     ghost blockSize100k: int)
    returns (ghost i: Item)
    requires w.Valid() && 0 < block.Length <= 100000 * blockSize100k <= 900000 && Complete(block[..])
    requires MarksExactly(inUse[..], block[..]) && crc == DataCrc(block[..])
    modifies w, block
    ensures Good(i, blockSize100k) && i.b == old(block[..])
    ensures w.Valid() && w.Contents() == old(w.Contents()) + ItemBits(i)
  {
    hide RunDecode, CrcFrom, SortedRotations, WholeBlock.Sends, Complete, BlockRoundTrip.BlockBits, ME.Unread, MarksExactly, DataCrc;
    var ptr, origPtr := BlockSort.Sort(block, workFactor);
    var mem := HalfWords(ptr);
    MarksAll(inUse[..], block[..]);
    SortedSize(block[..], ptr[..]);
    Pow32();
    ghost var k := CompressBlock.EmitBlock(w, CrcValue(crc), origPtr, mem, block, inUse, ptr[..]);
    i := Item(k, block[..], ptr[..]);
  }

  lemma SortedSize(b: seq<Byte>, p: seq<int>)
    requires SortedRotations(b, p)
    ensures |p| == |b| && forall i :: 0 <= i < |p| ==> 0 <= p[i] < |p|
  {
  }

  lemma MarksAll(u: seq<bool>, b: seq<Byte>)
    requires MarksExactly(u, b)
    ensures |u| == 256 && ME.Marks(u, b)
  {
  }

  /** The order in the 16-bit words that the symbols will be written over. */
  method HalfWords(ptr: array<int>) returns (mem: array<int>)
    ensures fresh(mem) && ME.Unread(mem[..], ptr[..], 0)
  {
    mem := new int[2 * ptr.Length];
    for i := 0 to ptr.Length
      invariant forall k :: 0 <= k < i ==> ME.PtrAt(mem[..], k) == ptr[k]
    {
      mem[2 * i] := ptr[i] % 65536;
      mem[2 * i + 1] := ptr[i] / 65536;
    }
  }
}
