/**
  dep/bzip2/compress.c, makeMaps_e and generateMTFValues (lines 104-231). The symbols are
  written as 16-bit words over the very array that holds the sort order as 32-bit words:
  entry i of the order is half words 2i and 2i + 1 of `mem`.
*/
module MtfEncoder {
  import opened Common
  import opened InverseBwt
  import opened Mtf
  import opened MtfLaws

  // ----- the bytes in use and their codes -----

  /** The bytes marked in `u`, in increasing order (seqToUnseq of the decoder). */
  function Used(u: seq<bool>): (r: seq<int>)
    ensures |r| <= |u| && forall i :: 0 <= i < |r| ==> 0 <= r[i] < |u|
  {
    if u == [] then []
    else Used(u[..|u| - 1]) + if u[|u| - 1] then [|u| - 1] else []
  }

  /** The code of byte c: how many bytes below it are in use. */
  function CodeOf(u: seq<bool>, c: nat): nat
    requires c <= |u|
  {
    |Used(u[..c])|
  }

  lemma {:induction false} UsedPrefix(u: seq<bool>, c: nat)
    requires c <= |u|
    ensures Used(u[..c]) <= Used(u)
    ensures c < |u| && u[c] ==> CodeOf(u, c) < |Used(u)| && Used(u)[CodeOf(u, c)] == c
    decreases |u|
  {
    if c < |u| {
      var t := u[..|u| - 1];
      assert t[..c] == u[..c];
      UsedPrefix(t, c);
    } else {
      assert u[..c] == u;
    }
  }

  method MakeMaps(inUse: array<bool>, unseqToSeq: array<int>) returns (nInUse: int)
    requires inUse.Length == unseqToSeq.Length == 256
    modifies unseqToSeq
    ensures nInUse == |Used(inUse[..])|
    ensures forall c :: 0 <= c < 256 && inUse[c] ==> unseqToSeq[c] == CodeOf(inUse[..], c)
  {
    nInUse := 0;
    ghost var u := inUse[..];
    for i := 0 to 256
      invariant nInUse == |Used(u[..i])|
      invariant forall c :: 0 <= c < i && u[c] ==> unseqToSeq[c] == CodeOf(u, c)
    {
      assert u[..i + 1][..i] == u[..i];
      if inUse[i] {
        unseqToSeq[i] := nInUse;
        nInUse := nInUse + 1;
      }
    }
    assert u[..256] == u;
  }

  /** The decoder's side of the same table. */
  method MakeMapsD(inUse: array<bool>, seqToUnseq: array<int>) returns (nInUse: int)
    requires inUse.Length == seqToUnseq.Length == 256
    modifies seqToUnseq
    ensures nInUse == |Used(inUse[..])| && seqToUnseq[..nInUse] == Used(inUse[..])
  {
    nInUse := 0;
    ghost var u := inUse[..];
    for i := 0 to 256
      invariant 0 <= nInUse <= i && seqToUnseq[..nInUse] == Used(u[..i])
    {
      assert u[..i + 1][..i] == u[..i];
      if inUse[i] {
        seqToUnseq[nInUse] := i;
        nInUse := nInUse + 1;
      }
    }
    assert u[..256] == u;
  }

  /** Every byte of the block is marked. */
  ghost predicate Marks(u: seq<bool>, l: seq<Byte>) {
    |u| == 256 && forall i :: 0 <= i < |l| ==> u[l[i]]
  }

  ghost function CodesOf(u: seq<bool>, l: seq<Byte>): (codes: seq<int>)
    requires |u| == 256
    ensures |codes| == |l|
  {
    seq(|l|, (i: int) requires 0 <= i < |l| => CodeOf(u, l[i]))
  }

  lemma CodesFit(u: seq<bool>, l: seq<Byte>)
    requires Marks(u, l)
    ensures Codes(CodesOf(u, l), |Used(u)|)
  {
    var codes := CodesOf(u, l);
    forall i | 0 <= i < |codes| ensures 0 <= codes[i] < |Used(u)| {
      UsedPrefix(u, l[i]);
    }
  }

  /** Mapping the codes back through seqToUnseq gives the bytes. */
  lemma CodesInvert(u: seq<bool>, l: seq<Byte>, i: int)
    requires Marks(u, l) && 0 <= i < |l|
    ensures 0 <= CodesOf(u, l)[i] < |Used(u)| && Used(u)[CodesOf(u, l)[i]] == l[i]
  {
    UsedPrefix(u, l[i]);
  }

  // ----- the shared memory -----

  /** ptr[i], from its two half words. */
  function PtrAt(mem: seq<int>, i: nat): int
    requires 2 * i + 1 < |mem|
  {
    mem[2 * i] + 65536 * mem[2 * i + 1]
  }

  /** Entries i, i + 1, ... of the sort order have not been overwritten. */
  ghost predicate Unread(mem: seq<int>, p: seq<int>, i: int) {
    && 0 <= i && 2 * |p| <= |mem|
    && forall k :: i <= k < |p| ==> PtrAt(mem, k) == p[k]
  }

  // ----- generateMTFValues -----

  /** The symbols written so far and their frequencies. */
  ghost predicate Written(mem: seq<int>, freq: seq<int>, size: int, wr: int, out: seq<int>) {
    && 0 <= wr == |out| <= |mem| && mem[..wr] == out
    && size <= |freq| && forall s :: 0 <= s < size ==> freq[s] == Count(out, s)
  }

  lemma WrittenIs(mem: seq<int>, freq: seq<int>, size: int, wr: int, out: seq<int>)
    requires Written(mem, freq, size, wr, out)
    ensures 0 <= wr <= |mem| && mem[..wr] == out
  {
  }

  lemma WriteSymbol(mem: seq<int>, freq: seq<int>, size: int, wr: int, out: seq<int>, s: int)
    requires Written(mem, freq, size, wr, out) && wr < |mem| && 0 <= s < size
    ensures s < |freq| && Written(mem[wr := s], freq[s := freq[s] + 1], size, wr + 1, out + [s])
  {
    var mem', freq', out' := mem[wr := s], freq[s := freq[s] + 1], out + [s];
    assert mem'[..wr + 1] == mem[..wr] + [s];
    forall x | 0 <= x < size ensures freq'[x] == Count(out', x) {
      assert out'[..|out|] == out;
    }
  }

  /** Writing below half word 2i leaves entries i, i + 1, ... of the order alone. */
  lemma WriteUnread(mem: seq<int>, p: seq<int>, i: int, wr: int, s: int)
    requires Unread(mem, p, i) && 0 <= wr < 2 * i && wr < |mem|
    ensures Unread(mem[wr := s], p, i)
  {
  }

  /** The loop that writes a pending run of zeros. */
  method FlushRun(mem: array<int>, mtfFreq: array<int>, ghost size: int, wr0: int, zeros: int,
                  ghost out: seq<int>, ghost p: seq<int>, ghost i: int)
    returns (wr: int)
    requires mem != mtfFreq && size >= 2 && zeros > 0
    requires Written(mem[..], mtfFreq[..], size, wr0, out) && Unread(mem[..], p, i)
    requires 0 <= wr0 && wr0 + zeros < 2 * i && wr0 + zeros < mem.Length
    modifies mem, mtfFreq
    ensures wr == wr0 + |ZeroRun(zeros)|
    ensures Written(mem[..], mtfFreq[..], size, wr, out + ZeroRun(zeros)) && Unread(mem[..], p, i)
  {
    hide Written, Unread, Count, ZeroRun;
    wr := wr0;
    var zPend := zeros - 1;
    ghost var done: seq<int> := [];
    assert out + done == out;
    while true
      invariant 0 <= zPend && done + ZeroRun(zPend + 1) == ZeroRun(zeros)
      invariant wr == wr0 + |done| && Written(mem[..], mtfFreq[..], size, wr, out + done) && Unread(mem[..], p, i)
      decreases zPend
    {
      ghost var m, f := mem[..], mtfFreq[..];
      var s := if zPend % 2 == 1 then RUNB else RUNA;
      ZeroRunNext(zPend, s);
      ghost var rest := if zPend < 2 then [] else ZeroRun((zPend - 2) / 2 + 1);
      assert (done + [s]) + rest == done + ([s] + rest);
      assert |done| < |ZeroRun(zeros)| <= zeros;
      WriteSymbol(m, f, size, wr, out + done, s);
      WriteUnread(m, p, i, wr, s);
      mem[wr] := s;
      mtfFreq[s] := mtfFreq[s] + 1;
      assert mem[..] == m[wr := s] && mtfFreq[..] == f[s := f[s] + 1];
      assert out + done + [s] == out + (done + [s]);
      done := done + [s];
      wr := wr + 1;
      if zPend < 2 {
        assert done + [] == done;
        break;
      }
      zPend := (zPend - 2) / 2;
    }
  }

  lemma ZeroRunNext(zPend: nat, s: int)
    requires s == if zPend % 2 == 1 then RUNB else RUNA
    ensures ZeroRun(zPend + 1) == [s] + if zPend < 2 then [] else ZeroRun((zPend - 2) / 2 + 1)
  {
    hide ZeroRun;
    var half := zPend / 2;
    if zPend % 2 == 0 { ZeroRunOdd(zPend + 1, half); } else { ZeroRunEven(zPend + 1, half); }
    if zPend >= 2 { assert (zPend - 2) / 2 + 1 == half; }
  }

  lemma ZeroRunOdd(z: nat, half: nat)
    requires z == 2 * half + 1
    ensures ZeroRun(z) == [RUNA] + ZeroRun(half)
  {
    assert z % 2 == 1 && (z - 1) / 2 == half;
  }

  lemma ZeroRunEven(z: nat, half: nat)
    requires z == 2 * half + 2
    ensures ZeroRun(z) == [RUNB] + ZeroRun(half)
  {
    assert z % 2 == 0 && (z - 2) / 2 == half;
  }

  /** The shifting loop: the entry equal to `code`, which is not the first, moves to the front. */
  method MoveFront(yy: array<int>, code: int, n: int) returns (j: int)
    requires 1 <= n <= yy.Length && yy[0] != code && code in yy[..n]
    modifies yy
    ensures j == Position(old(yy[..n]), code) && 0 < j < n
    ensures yy[..n] == ToFront(old(yy[..n]), j)
  {
    ghost var y0 := yy[..n];
    PositionRange(y0, code);
    ghost var target := Position(y0, code);
    var rtmp := yy[1];
    yy[1] := yy[0];
    j := 1;
    while code != rtmp
      invariant 1 <= j <= target && rtmp == y0[j]
      invariant forall k :: 1 <= k <= j ==> yy[k] == y0[k - 1]
      invariant forall k :: j < k < n ==> yy[k] == y0[k]
      decreases target - j
    {
      j := j + 1;
      var rtmp2 := rtmp;
      rtmp := yy[j];
      yy[j] := rtmp2;
    }
    yy[0] := rtmp;
    assert j == target;
  }

  lemma PositionRange(list: seq<int>, c: int)
    requires c in list
    ensures 0 <= Position(list, c) < |list| && (list[0] != c ==> Position(list, c) > 0)
  {
  }

  /** The variables of the loop hold the encoder's state. */
  ghost predicate Tracks(mem: seq<int>, freq: seq<int>, list: seq<int>, wr: int, zPend: int, e: Encoder) {
    Written(mem, freq, |list| + 2, wr, e.out) && zPend == e.zeros && list == e.list
  }

  /** One byte of the last column. */
  method EncodeByte(mem: array<int>, mtfFreq: array<int>, yy: array<int>, code: int, n: int, wr0: int, zPend0: int,
                    ghost e: Encoder, ghost p: seq<int>, ghost i: int)
    returns (wr: int, zPend: int)
    requires mem != mtfFreq && mem != yy && mtfFreq != yy
    requires 1 <= n <= yy.Length && code in e.list
    requires Tracks(mem[..], mtfFreq[..], yy[..n], wr0, zPend0, e) && Unread(mem[..], p, i + 1)
    requires 0 <= i && wr0 + zPend0 <= i && i + 1 < mem.Length
    modifies mem, mtfFreq, yy
    ensures Tracks(mem[..], mtfFreq[..], yy[..n], wr, zPend, Encode1(e, code)) && Unread(mem[..], p, i + 1)
  {
    hide Written, Unread, Count, ZeroRun, ToFront, Position;
    ghost var size := n + 2;
    TracksBounds(mem[..], mtfFreq[..], yy[..n], wr0, zPend0, e);
    wr, zPend := wr0, zPend0;
    if yy[0] == code {
      zPend := zPend + 1;
    } else {
      ghost var out := e.out;
      if zPend > 0 {
        wr := FlushRun(mem, mtfFreq, size, wr, zPend, out, p, i + 1);
        zPend := 0;
      }
      FlushedOut(e);
      out := e.out + ZeroRun(e.zeros);
      ghost var list := yy[..n];
      var j := MoveFront(yy, code, n);
      ghost var m, f := mem[..], mtfFreq[..];
      WriteSymbol(m, f, size, wr, out, j + 1);
      WriteUnread(m, p, i + 1, wr, j + 1);
      mem[wr] := j + 1;
      mtfFreq[j + 1] := mtfFreq[j + 1] + 1;
      assert mem[..] == m[wr := j + 1] && mtfFreq[..] == f[j + 1 := f[j + 1] + 1];
      wr := wr + 1;
    }
  }

  lemma TracksBounds(mem: seq<int>, freq: seq<int>, list: seq<int>, wr: int, zPend: int, e: Encoder)
    requires Tracks(mem, freq, list, wr, zPend, e)
    ensures 0 <= wr == |e.out| && list == e.list && zPend == e.zeros
  {
  }

  lemma FlushedOut(e: Encoder)
    ensures |ZeroRun(e.zeros)| <= e.zeros
    ensures e.zeros == 0 ==> e.out + ZeroRun(e.zeros) == e.out && ZeroRun(e.zeros) == []
  {
  }

  /** The list and the frequencies before the first byte. */
  method InitLists(mtfFreq: array<int>, yy: array<int>, n: int)
    requires mtfFreq != yy && 0 <= n <= yy.Length && n + 2 <= mtfFreq.Length
    modifies mtfFreq, yy
    ensures yy[..n] == Initial(n) && forall k :: 0 <= k < n + 2 ==> mtfFreq[k] == 0
  {
    for i := 0 to n + 2
      invariant forall k :: 0 <= k < i ==> mtfFreq[k] == 0
    {
      mtfFreq[i] := 0;
    }
    for i := 0 to n
      invariant forall k :: 0 <= k < n + 2 ==> mtfFreq[k] == 0
      invariant forall k :: 0 <= k < i ==> yy[k] == k
    {
      yy[i] := i;
    }
  }

  /** The loop invariant of generateMTFValues before byte i. */
  ghost predicate Encoding(mem: seq<int>, freq: seq<int>, list: seq<int>, wr: int, zPend: int,
                           codes: seq<int>, n: nat, p: seq<int>, i: int)
  {
    && 0 <= i <= |codes| == |p| && 2 * |p| <= |mem| && Codes(codes[..i], n)
    && Tracks(mem, freq, list, wr, zPend, EncodeAll(codes[..i], n))
    && wr + zPend <= i && Unread(mem, p, i) && |list| == n
  }

  lemma EncodingStart(mem: seq<int>, freq: seq<int>, codes: seq<int>, n: nat, p: seq<int>)
    requires Unread(mem, p, 0) && |codes| == |p| && Codes(codes, n) && n + 2 <= |freq|
    requires forall k :: 0 <= k < n + 2 ==> freq[k] == 0
    ensures Encoding(mem, freq, Initial(n), 0, 0, codes, n, p, 0)
  {
    assert codes[..0] == [] && mem[..0] == [];
  }

  lemma EncodingHere(mem: seq<int>, freq: seq<int>, list: seq<int>, wr: int, zPend: int,
                     codes: seq<int>, n: nat, p: seq<int>, i: int)
    requires Encoding(mem, freq, list, wr, zPend, codes, n, p, i) && i < |codes| && Codes(codes, n)
    ensures Codes(codes[..i], n) && Codes(codes[..i + 1], n)
    ensures var e := EncodeAll(codes[..i], n);
            && codes[i] in e.list && Tracks(mem, freq, list, wr, zPend, e)
            && EncodeAll(codes[..i + 1], n) == Encode1(e, codes[i])
    ensures Unread(mem, p, i + 1) && PtrAt(mem, i) == p[i] && wr + zPend <= i
    ensures n > 0
  {
    assert codes[..i + 1][..i] == codes[..i] && codes[..i + 1][i] == codes[i];
    EncodeAllNext(codes[..i + 1], n);
  }

  lemma EncodingNext(mem: seq<int>, freq: seq<int>, list: seq<int>, wr: int, zPend: int,
                     codes: seq<int>, n: nat, p: seq<int>, i: int)
    requires 0 <= i < |codes| == |p| && 2 * |p| <= |mem| && Codes(codes, n) && |list| == n
    requires Codes(codes[..i + 1], n)
    requires Tracks(mem, freq, list, wr, zPend, EncodeAll(codes[..i + 1], n)) && Unread(mem, p, i + 1)
    ensures Encoding(mem, freq, list, wr, zPend, codes, n, p, i + 1)
  {
    SymbolsShort(codes[..i + 1], n);
  }

  /** The rotation read from the order leads to its byte in the last column, and that to its code. */
  lemma ColumnByte(b: seq<Byte>, p: seq<int>, u: seq<bool>, i: int, j: int)
    requires |p| == |b| && 0 <= i < |p| && forall k :: 0 <= k < |p| ==> 0 <= p[k] < |b|
    requires j == (if p[i] - 1 < 0 then p[i] - 1 + |b| else p[i] - 1) && Marks(u, b)
    ensures 0 <= j < |b| && u[b[j]] && CodesOf(u, LastColumn(b, p))[i] == CodeOf(u, b[j])
  {
  }

  lemma ColumnMarked(b: seq<Byte>, p: seq<int>, u: seq<bool>)
    requires |p| == |b| && (forall k :: 0 <= k < |p| ==> 0 <= p[k] < |b|) && Marks(u, b)
    ensures Marks(u, LastColumn(b, p))
  {
  }

  lemma EncodingEnd(mem: seq<int>, freq: seq<int>, list: seq<int>, wr: int, zPend: int,
                    codes: seq<int>, n: nat, p: seq<int>)
    requires Codes(codes, n) && Encoding(mem, freq, list, wr, zPend, codes, n, p, |codes|) && |p| > 0
    ensures var e := EncodeAll(codes, n);
            && Written(mem, freq, n + 2, wr, e.out) && zPend == e.zeros
            && Symbols(codes, n) == e.out + ZeroRun(e.zeros) + [n + 1]
    ensures Unread(mem, p, |codes|) && 0 <= wr && wr + zPend <= |codes| == |p| && 2 * |codes| <= |mem|
    ensures n + 2 <= |freq|
  {
    assert codes[..|codes|] == codes;
  }

  /** What follows the loop: flush the last run, write the end mark. */
  method FinishSymbols(mem: array<int>, mtfFreq: array<int>, n: nat, wr0: int, zPend: int,
                       ghost list: seq<int>, ghost codes: seq<int>, ghost p: seq<int>)
    returns (nMTF: int)
    requires mem != mtfFreq && |p| > 0 && |codes| == |p| && Codes(codes, n)
    requires Encoding(mem[..], mtfFreq[..], list, wr0, zPend, codes, n, p, |codes|)
    modifies mem, mtfFreq
    ensures 0 < nMTF <= |codes| + 1 && nMTF <= mem.Length
    ensures Written(mem[..], mtfFreq[..], n + 2, nMTF, Symbols(codes, n))
  {
    hide Written, Unread, Count, ZeroRun, EncodeAll, Encoding, Tracks, Codes, Symbols;
    ghost var e := EncodeAll(codes, n);
    EncodingEnd(mem[..], mtfFreq[..], list, wr0, zPend, codes, n, p);
    nMTF := wr0;
    if zPend > 0 {
      nMTF := FlushRun(mem, mtfFreq, n + 2, nMTF, zPend, e.out, p, |codes|);
    }
    FlushedOut(e);
    ghost var m, f := mem[..], mtfFreq[..];
    WriteSymbol(m, f, n + 2, nMTF, e.out + ZeroRun(e.zeros), n + 1);
    mem[nMTF] := n + 1;
    mtfFreq[n + 1] := mtfFreq[n + 1] + 1;
    assert mem[..] == m[nMTF := n + 1] && mtfFreq[..] == f[n + 1 := f[n + 1] + 1];
    nMTF := nMTF + 1;
  }

  /**
    generateMTFValues: the symbols of the last column, then the end mark. The frequencies count
    exactly what was written, and no entry of the order is overwritten before it is read.
  */
  method GenerateMTFValues(mem: array<int>, block: array<Byte>, inUse: array<bool>, unseqToSeq: array<int>,
                           mtfFreq: array<int>, nblock: int, ghost p: seq<int>)
    returns (nInUse: int, nMTF: int)
    requires mem != mtfFreq && mem != unseqToSeq && mtfFreq != unseqToSeq
    requires 0 < nblock == |p| == block.Length && IsPerm(p)
    requires inUse.Length == unseqToSeq.Length == 256 && mtfFreq.Length == 258
    requires Unread(mem[..], p, 0) && Marks(inUse[..], block[..])
    modifies mem, unseqToSeq, mtfFreq
    ensures nInUse == |Used(inUse[..])| && 0 < nMTF <= nblock + 1 && nMTF <= mem.Length
    ensures Codes(CodesOf(inUse[..], LastColumn(block[..], p)), nInUse)
    ensures Written(mem[..], mtfFreq[..], nInUse + 2, nMTF, Symbols(CodesOf(inUse[..], LastColumn(block[..], p)), nInUse))
    ensures PlainSymbols(mem[..nMTF], CodesOf(inUse[..], LastColumn(block[..], p)), nInUse)
  {
    ghost var b, u := block[..], inUse[..];
    ghost var l := LastColumn(b, p);
    assert 2 * nblock <= mem.Length;
    ColumnMarked(b, p, u);
    CodesFit(u, l);
    hide Written, Unread, Count, Symbols, EncodeAll, LastColumn, Used, Marks, CodesOf, CodeOf, Tracks, Encoding, Codes, PlainSymbols;
    ghost var codes := CodesOf(u, l);
    nInUse := MakeMaps(inUse, unseqToSeq);
    ghost var map0 := unseqToSeq[..];
    var yy := new int[256];
    InitLists(mtfFreq, yy, nInUse);
    EncodingStart(mem[..], mtfFreq[..], codes, nInUse, p);
    var wr, zPend := 0, 0;
    for i := 0 to nblock
      invariant unseqToSeq[..] == map0
      invariant Encoding(mem[..], mtfFreq[..], yy[..nInUse], wr, zPend, codes, nInUse, p, i)
    {
      EncodingHere(mem[..], mtfFreq[..], yy[..nInUse], wr, zPend, codes, nInUse, p, i);
      var j := PtrAt(mem[..], i) - 1;
      if j < 0 { j := j + nblock; }
      ColumnByte(b, p, u, i, j);
      var code := unseqToSeq[block[j]];
      assert map0[b[j]] == CodeOf(u, b[j]);
      wr, zPend := EncodeByte(mem, mtfFreq, yy, code, nInUse, wr, zPend, EncodeAll(codes[..i], nInUse), p, i);
      EncodingNext(mem[..], mtfFreq[..], yy[..nInUse], wr, zPend, codes, nInUse, p, i);
    }
    nMTF := FinishSymbols(mem, mtfFreq, nInUse, wr, zPend, yy[..nInUse], codes, p);
    WrittenIs(mem[..], mtfFreq[..], nInUse + 2, nMTF, Symbols(codes, nInUse));
    SymbolsPlain(codes, nInUse);
  }
}
