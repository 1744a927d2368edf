/**
  Move-to-front coding with zero runs written in bijective base 2: what generateMTFValues
  (dep/bzip2/compress.c, lines 118-231) and the symbol loop of BZ2_decompress
  (dep/bzip2/decompress.c, lines 372-479) compute, and that the one undoes the other.
*/
module Mtf {
  import opened Common

  const RUNA := 0
  const RUNB := 1

  /** The entry at position k moved to the front. */
  function ToFront(list: seq<int>, k: nat): (r: seq<int>)
    requires k < |list|
    ensures |r| == |list|
  {
    [list[k]] + list[..k] + list[k + 1..]
  }

  function Repeat(x: int, n: nat): (r: seq<int>)
    ensures |r| == n && forall i :: 0 <= i < n ==> r[i] == x
  {
    seq(n, _ => x)
  }

  /** The digits of z in bijective base 2, least significant first: RUNA is 1, RUNB is 2. */
  function ZeroRun(z: nat): (r: seq<int>)
    ensures |r| <= z
    ensures forall i :: 0 <= i < |r| ==> r[i] == RUNA || r[i] == RUNB
    decreases z
  {
    if z == 0 then []
    else if z % 2 == 1 then [RUNA] + ZeroRun((z - 1) / 2)
    else [RUNB] + ZeroRun((z - 2) / 2)
  }

  // ----- encoder -----

  /** The encoder's state: symbols written, pending zeros, and the list of codes. */
  datatype Encoder = Encoder(out: seq<int>, zeros: nat, list: seq<int>)

  ghost function Position(list: seq<int>, c: int): (j: nat)
    requires c in list
    ensures j < |list| && list[j] == c && forall k :: 0 <= k < j ==> list[k] != c
  {
    if list[0] == c then 0 else 1 + Position(list[1..], c)
  }

  ghost function Encode1(e: Encoder, c: int): (r: Encoder)
    requires c in e.list
    ensures |r.list| == |e.list|
  {
    if e.list[0] == c then e.(zeros := e.zeros + 1)
    else
      var j := Position(e.list, c);
      Encoder(e.out + ZeroRun(e.zeros) + [j + 1], 0, ToFront(e.list, j))
  }

  /** The codes 0, ..., n - 1 in order: the list before the first code. */
  function Initial(n: nat): (r: seq<int>)
    ensures |r| == n && forall i :: 0 <= i < n ==> r[i] == i
  {
    seq(n, i => i)
  }

  ghost predicate Codes(codes: seq<int>, n: nat) {
    forall i :: 0 <= i < |codes| ==> 0 <= codes[i] < n
  }

  /** A list of the codes 0, ..., n - 1 in some order. */
  ghost predicate ListOf(list: seq<int>, n: nat) {
    |list| == n && IsPerm(list)
  }

  lemma ToFrontListOf(list: seq<int>, k: nat, n: nat)
    requires ListOf(list, n) && k < n
    ensures ListOf(ToFront(list, k), n)
  {
    var r := ToFront(list, k);
    forall i | 0 <= i < n ensures r[i] == list[if i == 0 then k else if i <= k then i - 1 else i] {}
  }

  lemma ListHas(list: seq<int>, n: nat, c: int)
    requires ListOf(list, n) && 0 <= c < n
    ensures c in list
  {
    var i := PermHits(list, c);
  }

  /** The encoder after the given codes. */
  ghost function EncodeAll(codes: seq<int>, n: nat): (e: Encoder)
    requires Codes(codes, n)
    ensures ListOf(e.list, n)
  {
    if codes == [] then Encoder([], 0, Initial(n))
    else
      var m := |codes| - 1;
      assert Codes(codes[..m], n);
      var e := EncodeAll(codes[..m], n);
      ListHas(e.list, n, codes[m]);
      assert ListOf(Encode1(e, codes[m]).list, n) by {
        if e.list[0] != codes[m] { ToFrontListOf(e.list, Position(e.list, codes[m]), n); }
      }
      Encode1(e, codes[m])
  }

  /** Everything generateMTFValues writes: the last run is flushed and the end mark added. */
  ghost function Symbols(codes: seq<int>, n: nat): seq<int>
    requires Codes(codes, n)
  {
    var e := EncodeAll(codes, n);
    e.out + ZeroRun(e.zeros) + [n + 1]
  }

  // ----- decoder -----

  /** The decoder's state: codes recovered, the list, and the run being read (es + 1 and N in the source). */
  datatype Decoder = Decoder(col: seq<int>, list: seq<int>, run: nat, weight: nat)

  function Flush(d: Decoder): Decoder
    requires |d.list| > 0
  {
    d.(col := d.col + Repeat(d.list[0], d.run), run := 0, weight := 1)
  }

  /** One symbol other than the end mark. */
  function Decode1(d: Decoder, s: nat): (r: Decoder)
    requires |d.list| > 0 && s <= |d.list|
    ensures |r.list| == |d.list|
  {
    if s == RUNA then d.(run := d.run + d.weight, weight := 2 * d.weight)
    else if s == RUNB then d.(run := d.run + 2 * d.weight, weight := 2 * d.weight)
    else
      var f := Flush(d);
      var list := ToFront(f.list, s - 1);
      f.(col := f.col + [list[0]], list := list)
  }

  ghost predicate SymbolsFit(syms: seq<int>, n: nat) {
    forall i :: 0 <= i < |syms| ==> 0 <= syms[i] <= n
  }

  function DecodeFrom(d: Decoder, syms: seq<int>): (r: Decoder)
    requires |d.list| > 0 && SymbolsFit(syms, |d.list|)
    ensures |r.list| == |d.list|
    decreases |syms|
  {
    if syms == [] then d else DecodeFrom(Decode1(d, syms[0]), syms[1..])
  }

  function Start(n: nat): Decoder {
    Decoder([], Initial(n), 0, 1)
  }

  lemma {:induction false} DecodeConcat(d: Decoder, a: seq<int>, b: seq<int>)
    requires |d.list| > 0 && SymbolsFit(a, |d.list|) && SymbolsFit(b, |d.list|)
    ensures SymbolsFit(a + b, |d.list|)
    ensures DecodeFrom(d, a + b) == DecodeFrom(DecodeFrom(d, a), b)
    decreases |a|
  {
    if a == [] {
      assert a + b == b;
    } else {
      assert (a + b)[0] == a[0] && (a + b)[1..] == a[1..] + b;
      DecodeConcat(Decode1(d, a[0]), a[1..], b);
    }
  }

  /** Reading the digits of z adds z, times the weight of the first digit, to the run. */
  lemma {:induction false} DecodeZeroRun(d: Decoder, z: nat)
    requires |d.list| > 0
    ensures SymbolsFit(ZeroRun(z), |d.list|)
    ensures var r := DecodeFrom(d, ZeroRun(z));
            r.col == d.col && r.list == d.list && r.run == d.run + d.weight * z
    decreases z
  {
    if z > 0 {
      var digit := ZeroRun(z)[0];
      var rest := if z % 2 == 1 then (z - 1) / 2 else (z - 2) / 2;
      var d1 := Decode1(d, digit);
      assert ZeroRun(z)[1..] == ZeroRun(rest);
      DecodeZeroRun(d1, rest);
      RunValue(d.weight, rest);
      assert z == 2 * rest + if digit == RUNA then 1 else 2;
    }
  }

  lemma RunValue(w: nat, rest: nat)
    ensures w * (2 * rest + 1) == w + (2 * w) * rest
    ensures w * (2 * rest + 2) == 2 * w + (2 * w) * rest
  {
  }

  /** The decoder's list is the encoder's followed by codes not in use. */
  ghost predicate Extends(big: seq<int>, list: seq<int>) {
    |list| <= |big| && big[..|list|] == list
  }

  lemma ToFrontExtends(big: seq<int>, list: seq<int>, j: nat)
    requires Extends(big, list) && j < |list|
    ensures Extends(ToFront(big, j), ToFront(list, j))
  {
    var r, q := ToFront(big, j), ToFront(list, j);
    forall i | 0 <= i < |list| ensures r[i] == q[i] {}
  }

  /** The decoder after the symbols the encoder has written so far. */
  ghost predicate InStep(e: Encoder, d: Decoder, codes: seq<int>) {
    && |e.list| > 0 && Extends(d.list, e.list)
    && d.run == 0 && d.weight == 1
    && d.col + Repeat(e.list[0], e.zeros) == codes
  }

  lemma StepInStep(e: Encoder, d: Decoder, codes: seq<int>, c: int)
    requires InStep(e, d, codes) && c in e.list
    ensures var e' := Encode1(e, c);
            && e.out <= e'.out && SymbolsFit(e'.out[|e.out|..], |e.list|)
            && InStep(e', DecodeFrom(d, e'.out[|e.out|..]), codes + [c])
  {
    var e' := Encode1(e, c);
    if e.list[0] == c {
      assert e'.out[|e.out|..] == [];
      assert Repeat(c, e.zeros) + [c] == Repeat(c, e.zeros + 1);
    } else {
      var j := Position(e.list, c);
      var run := ZeroRun(e.zeros);
      assert e'.out[|e.out|..] == run + [j + 1];
      DecodeZeroRun(d, e.zeros);
      DecodeConcat(d, run, [j + 1]);
      var d1 := DecodeFrom(d, run);
      assert DecodeFrom(d1, [j + 1]) == DecodeFrom(Decode1(d1, j + 1), []);
      ToFrontExtends(d.list, e.list, j);
      assert Flush(d1).col == codes;
    }
  }

  lemma EncodeAllNext(codes: seq<int>, n: nat)
    requires Codes(codes, n) && codes != []
    ensures var k := |codes| - 1;
            && Codes(codes[..k], n)
            && codes[k] in EncodeAll(codes[..k], n).list
            && EncodeAll(codes, n) == Encode1(EncodeAll(codes[..k], n), codes[k])
  {
    var k := |codes| - 1;
    ListHas(EncodeAll(codes[..k], n).list, n, codes[k]);
  }

  lemma StartInStep(n: nat, m: nat)
    requires 0 < n <= m
    ensures InStep(Encoder([], 0, Initial(n)), Start(m), [])
  {
    assert Initial(m)[..n] == Initial(n);
  }

  lemma {:induction false} AllInStep(codes: seq<int>, n: nat, m: nat)
    requires Codes(codes, n) && 0 < n <= m
    ensures var e := EncodeAll(codes, n);
            SymbolsFit(e.out, n) && |e.list| == n && InStep(e, DecodeFrom(Start(m), e.out), codes)
  {
    if codes == [] {
      StartInStep(n, m);
    } else {
      var k := |codes| - 1;
      EncodeAllNext(codes, n);
      AllInStep(codes[..k], n, m);
      AllInStepNext(codes, n, m, EncodeAll(codes[..k], n), EncodeAll(codes, n));
    }
  }

  lemma AllInStepNext(codes: seq<int>, n: nat, m: nat, e0: Encoder, e: Encoder)
    requires codes != [] && 0 < n <= m && |e0.list| == n
    requires SymbolsFit(e0.out, n) && InStep(e0, DecodeFrom(Start(m), e0.out), codes[..|codes| - 1])
    requires codes[|codes| - 1] in e0.list && e == Encode1(e0, codes[|codes| - 1])
    ensures SymbolsFit(e.out, n) && InStep(e, DecodeFrom(Start(m), e.out), codes)
  {
    hide InStep, Encode1, DecodeFrom;
    var k := |codes| - 1;
    StepInStep(e0, DecodeFrom(Start(m), e0.out), codes[..k], codes[k]);
    var more := e.out[|e0.out|..];
    assert e.out == e0.out + more;
    DecodeConcat(Start(m), e0.out, more);
    assert codes == codes[..k] + [codes[k]];
  }

  /** Decoding the symbols before the end mark, and flushing at it, gives the codes back. */
  lemma SymbolsRoundTrip(codes: seq<int>, n: nat, m: nat)
    requires Codes(codes, n) && 0 < n <= m
    ensures var syms := Symbols(codes, n);
            && syms != [] && syms[|syms| - 1] == n + 1
            && SymbolsFit(syms[..|syms| - 1], n)
            && Flush(DecodeFrom(Start(m), syms[..|syms| - 1])).col == codes
  {
    var e, syms := EncodeAll(codes, n), Symbols(codes, n);
    AllInStep(codes, n, m);
    var d := DecodeFrom(Start(m), e.out);
    assert syms[..|syms| - 1] == e.out + ZeroRun(e.zeros);
    DecodeZeroRun(d, e.zeros);
    DecodeConcat(Start(m), e.out, ZeroRun(e.zeros));
  }

  /** Never more symbols than codes, plus the end mark: AssertD generateMTFValues(1), and nMTF <= nblock + 1. */
  lemma {:induction false} SymbolsShort(codes: seq<int>, n: nat)
    requires Codes(codes, n)
    ensures var e := EncodeAll(codes, n); |e.out| + e.zeros <= |codes|
  {
    if codes != [] {
      var m := |codes| - 1;
      SymbolsShort(codes[..m], n);
      ListHas(EncodeAll(codes[..m], n).list, n, codes[m]);
    }
  }
}
