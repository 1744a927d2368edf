/**
  dep/bzip2/bzlib.c, BZ2_bzBuffToBuffCompress and BZ2_bzBuffToBuffDecompress (lines 1247-1348):
  the whole library in two calls, and its law: what is compressed comes back.
*/
module BuffToBuff {
  import opened Common
  import opened BitIO
  import opened StreamFormat
  import opened Continuation
  import S = Stream
  import D = BzDecompress

  const OK := 0
  const PARAM_ERROR := -2
  const UNEXPECTED_EOF := -7
  const OUTBUFF_FULL := -8

  /** The bytes are a compressed stream of the data. */
  ghost predicate Encodes(bytes: seq<Byte>, data: seq<Byte>) {
    exists blockSize100k, items :: StreamOfData(bytes, data, blockSize100k, items)
  }

  ghost predicate StreamOfData(bytes: seq<Byte>, data: seq<Byte>, blockSize100k: int, items: seq<Item>) {
    S.StreamOf(Unpacked(bytes), blockSize100k, items) && Content(items) == data
  }

  /** A stream has at least its header. */
  lemma NeverEmpty(blockSize100k: int, items: seq<Item>)
    ensures !S.StreamOf(Unpacked([]), blockSize100k, items)
  {
    hide ItemsBits, Trailer, StreamHeader, AllGood, Combined;
    if S.StreamOf(Unpacked([]), blockSize100k, items) {
      HeaderSome(blockSize100k);
    }
  }

  lemma HeaderSome(blockSize100k: int)
    requires 1 <= blockSize100k <= 9
    ensures |StreamHeader(blockSize100k)| > 0
  {
  }

  /**
    BZ2_bzBuffToBuffCompress: with good parameters the destination is filled with a stream of
    the source, or is too small and holds the beginning of one; a destination of three times the
    source and 6516 bytes is never too small. An empty source and no room at all is a sequence error.
    The answers are OK 0, and the sequence, parameter and full-buffer errors -1, -2 and -8.
  */
  method Compress(source: seq<Byte>, destLen: nat, blockSize100k: int, verbosity: int, workFactor: int)
    returns (ret: int, dest: seq<Byte>)
    ensures ret == -2 <==>
              blockSize100k < 1 || blockSize100k > 9 || verbosity < 0 || verbosity > 4 || workFactor < 0 || workFactor > 250
    ensures ret == 0 ==> |dest| <= destLen && Encodes(dest, source)
    ensures ret in {0, -2, -8, -1}
    ensures ret == -8 ==> |dest| == destLen && Begins(dest, source)
    ensures ret != -2 && destLen > 3 * |source| + 6515 ==> ret == 0
    ensures ret == -1 <==> ret != -2 && destLen == 0 && source == []
  {
    hide S.StreamOf, Content, Unpacked, Begins, S.EState.Valid;
    if blockSize100k < 1 || blockSize100k > 9 || verbosity < 0 || verbosity > 4 || workFactor < 0 || workFactor > 250 {
      return PARAM_ERROR, [];
    }
    var wf := if workFactor == 0 then 30 else workFactor;
    var strm := new S.EState(blockSize100k, wf);
    var taken;
    ret, taken, dest := strm.Compress(S.Finish, source, destLen);
    assert [] + dest == dest;
    if ret == S.FINISH_OK {
      if strm.ended { TrailerLast(strm); }
      Bounded(strm);
      Delivered(strm, source[taken..]);
      assert [] + source[..taken] + source[taken..] == source;
      return OUTBUFF_FULL, dest;
    }
    if ret != S.STREAM_END {
      NeverEmpty(strm.blockSize100k, strm.items);
      return ret, dest;
    }
    assert [] + source[..taken] == source;
    assert StreamOfData(dest, source, strm.blockSize100k, strm.items);
    ret := OK;
  }

  /**
    BZ2_bzBuffToBuffDecompress, on a stream of some data: the data comes back exactly when there
    is room for it; with less room its beginning does, and the call says so. The FAST and the SMALL
    decompressor do the same.
  */
  method Decompress(destLen: nat, source: seq<Byte>, small: int, verbosity: int, ghost data: seq<Byte>)
    returns (ret: int, dest: seq<Byte>)
    requires Encodes(source, data)
    ensures ret == -2 <==> (small != 0 && small != 1) || verbosity < 0 || verbosity > 4
    ensures ret != -2 ==> ret == if destLen >= |data| then 0 else -8
    ensures ret != -2 ==> dest == data[..Min(destLen, |data|)]
  {
    hide S.StreamOf, Content, Unpacked, StreamHeader, D.Rest;
    if (small != 0 && small != 1) || verbosity < 0 || verbosity > 4 { return PARAM_ERROR, []; }
    ghost var blockSize100k, items :| StreamOfData(source, data, blockSize100k, items);
    ghost var pad := D.Readable(Unpacked(source), blockSize100k, items);
    var strm := new D.DState(small == 1, blockSize100k, items, pad);
    ret, dest := strm.Decompress(source, destLen);
    assert [] + dest == dest;
    if ret == D.OK {
      if |dest| < destLen { return UNEXPECTED_EOF, dest; }
      return OUTBUFF_FULL, dest;
    }
    if ret != D.STREAM_END { return ret, dest; }
    ret := OK;
  }
}
