/**
  The symbols generateMTFValues writes (dep/bzip2/compress.c, lines 120-231), in plain numbers: a
  run of zeros in bijective base 2 with the digits 0 and 1, every other place one higher, and the
  end mark behind the highest.
*/
module MtfLaws {
  import opened Common
  import opened Mtf

  /** The value of digits of which entry i counts one more than it is, times 2^i. */
  function Weighted(d: seq<int>): int {
    if d == [] then 0 else Weighted(d[..|d| - 1]) + (d[|d| - 1] + 1) * Pow2(|d| - 1)
  }

  lemma {:induction false} WeightedFront(c: int, d: seq<int>)
    ensures Weighted([c] + d) == c + 1 + 2 * Weighted(d)
  {
    var all := [c] + d;
    if d == [] {
      assert all[..0] == [];
    } else {
      assert all[..|d|] == [c] + d[..|d| - 1];
      WeightedFront(c, d[..|d| - 1]);
      assert Pow2(|d|) == 2 * Pow2(|d| - 1);
      Distribute(d[|d| - 1] + 1, Pow2(|d| - 1));
    }
  }

  lemma Distribute(a: int, p: int)
    ensures a * (2 * p) == 2 * (a * p)
  {
  }

  /** The entries of a zero run are 0 or 1, and entry i counts (entry + 1) * 2^i. */
  lemma {:induction false} ZeroRunValue(z: nat)
    ensures forall i :: 0 <= i < |ZeroRun(z)| ==> ZeroRun(z)[i] == 0 || ZeroRun(z)[i] == 1
    ensures Weighted(ZeroRun(z)) == z
    decreases z
  {
    if z > 0 {
      var rest := if z % 2 == 1 then (z - 1) / 2 else (z - 2) / 2;
      ZeroRunValue(rest);
      var c := if z % 2 == 1 then 0 else 1;
      assert ZeroRun(z) == [c] + ZeroRun(rest);
      WeightedFront(c, ZeroRun(rest));
    }
  }

  /** The place of each code in the list of codes, which then moves to its front. */
  ghost function Places(codes: seq<int>, list: seq<int>): (r: seq<int>)
    ensures |r| == |codes|
  {
    if codes == [] || codes[0] !in list then seq(|codes|, _ => 0)
    else
      var j := Position(list, codes[0]);
      [j] + Places(codes[1..], [list[j]] + list[..j] + list[j + 1..])
  }

  /**
    Places in plain symbols: `out` stands for all but the last `zeros` of them, which are zero.
    A place above zero is written one higher, behind the digits of the zeros before it.
  */
  ghost predicate Plain(out: seq<int>, zeros: nat, places: seq<int>)
    decreases |places|
  {
    if places == [] then out == [] && zeros == 0
    else
      var last, rest := places[|places| - 1], places[..|places| - 1];
      if last == 0 then zeros > 0 && Plain(out, zeros - 1, rest)
      else zeros == 0 && exists k, z: nat :: PlainEnd(out, k, z, last) && Plain(out[..k], z, rest)
  }

  /** `out` ends with the digits of z, from place k on, and the symbol of a place above zero. */
  ghost predicate PlainEnd(out: seq<int>, k: int, z: int, place: int) {
    && 0 <= k < |out| && out[|out| - 1] == place + 1
    && (forall i :: k <= i < |out| - 1 ==> out[i] == 0 || out[i] == 1) && Weighted(out[k..|out| - 1]) == z
  }

  lemma PlacesFirst(codes: seq<int>, list: seq<int>, n: nat)
    requires Codes(codes, n) && codes != [] && ListOf(list, n)
    ensures codes[0] in list && |list| == n && Position(list, codes[0]) < n && Codes(codes[1..], n)
    ensures Places(codes, list) == [Position(list, codes[0])] + Places(codes[1..], ToFront(list, Position(list, codes[0])))
    ensures ListOf(ToFront(list, Position(list, codes[0])), n)
  {
    hide Position;
    ListHas(list, n, codes[0]);
    ToFrontListOf(list, Position(list, codes[0]), n);
  }

  lemma {:induction false} PlacesNext(codes: seq<int>, c: int, list: seq<int>, n: nat)
    requires Codes(codes, n) && 0 <= c < n && ListOf(list, n)
    ensures c in ListAfter(codes, list) && ListOf(ListAfter(codes, list), n)
    ensures Places(codes + [c], list) == Places(codes, list) + [Position(ListAfter(codes, list), c)]
    decreases |codes|
  {
    hide Position, ListOf, Places, ToFront;
    PlacesFirst(codes + [c], list, n);
    assert (codes + [c])[1..] == if codes == [] then [] else codes[1..] + [c];
    if codes == [] {
      NoPlaces(list);
      NoPlaces(ToFront(list, Position(list, c)));
    } else {
      PlacesFirst(codes, list, n);
      PlacesNext(codes[1..], c, ToFront(list, Position(list, codes[0])), n);
    }
  }

  lemma NoPlaces(list: seq<int>)
    ensures Places([], list) == []
  {
  }

  /** The list when all the codes have moved to its front. */
  ghost function ListAfter(codes: seq<int>, list: seq<int>): seq<int> {
    if codes == [] || codes[0] !in list then list else ListAfter(codes[1..], ToFront(list, Position(list, codes[0])))
  }

  lemma {:induction false} ListAfterNext(codes: seq<int>, c: int, list: seq<int>, n: nat)
    requires Codes(codes, n) && 0 <= c < n && ListOf(list, n)
    ensures c in ListAfter(codes, list)
    ensures ListAfter(codes + [c], list) == ToFront(ListAfter(codes, list), Position(ListAfter(codes, list), c))
    decreases |codes|
  {
    hide Position, IsPerm;
    if codes == [] {
      ListHas(list, n, c);
      assert (codes + [c])[1..] == [];
    } else {
      ListHas(list, n, codes[0]);
      var j := Position(list, codes[0]);
      ToFrontListOf(list, j, n);
      assert (codes + [c])[1..] == codes[1..] + [c];
      ListAfterNext(codes[1..], c, ToFront(list, j), n);
    }
  }

  lemma FrontStays(list: seq<int>, n: nat)
    requires |list| > 0
    ensures ToFront(list, 0) == list && Position(list, list[0]) == 0
  {
    assert list[..0] == [] && [list[0]] + [] == [list[0]];
    assert [list[0]] + list[1..] == list;
  }

  /** What the encoder has at any moment. */
  lemma {:induction false} EncodedPlain(codes: seq<int>, n: nat)
    requires Codes(codes, n)
    ensures ListOf(Initial(n), n) && EncodeAll(codes, n).list == ListAfter(codes, Initial(n))
    ensures Plain(EncodeAll(codes, n).out, EncodeAll(codes, n).zeros, Places(codes, Initial(n)))
    decreases |codes|
  {
    hide Position, ListOf, ZeroRun, Weighted;
    if codes == [] {
      EncodedNone(n);
    } else {
      var m := |codes| - 1;
      var t, c := codes[..m], codes[m];
      assert codes == t + [c];
      EncodedPlain(t, n);
      PlacesNext(t, c, Initial(n), n);
      ListAfterNext(t, c, Initial(n), n);
      PlainNext(EncodeAll(t, n), c, Places(t, Initial(n)));
      assert Places(codes, Initial(n)) == Places(t, Initial(n)) + [Position(EncodeAll(t, n).list, c)];
    }
  }

  lemma EncodedNone(n: nat)
    ensures ListOf(Initial(n), n) && EncodeAll([], n) == Encoder([], 0, Initial(n))
  {
  }

  lemma PlainNext(e: Encoder, c: int, places: seq<int>)
    requires c in e.list && Plain(e.out, e.zeros, places)
    ensures Encode1(e, c).list == ToFront(e.list, Position(e.list, c))
    ensures Plain(Encode1(e, c).out, Encode1(e, c).zeros, places + [Position(e.list, c)])
  {
    hide ZeroRun, Weighted;
    var j, more := Position(e.list, c), places + [Position(e.list, c)];
    assert more[..|places|] == places;
    FrontStays(e.list, 0);
    if e.list[0] != c {
      assert j > 0;
      ZeroRunValue(e.zeros);
      var d := ZeroRun(e.zeros);
      var out := e.out + d + [j + 1];
      assert out[|e.out|..|out| - 1] == d && out[..|e.out|] == e.out;
      assert PlainEnd(out, |e.out|, e.zeros, j) && Plain(out[..|e.out|], e.zeros, places);
    }
  }

  /** All symbols: the places, the digits of the zeros that are left, and the end mark behind the highest of n places. */
  ghost predicate PlainSymbols(s: seq<int>, codes: seq<int>, n: nat) {
    && |s| > 0 && s[|s| - 1] == n + 1
    && exists k, z: nat :: PlainRest(s, k, z) && Plain(s[..k], z, Places(codes, Initial(n)))
  }

  ghost predicate PlainRest(s: seq<int>, k: int, z: int) {
    && 0 <= k < |s| && (forall i :: k <= i < |s| - 1 ==> s[i] == 0 || s[i] == 1)
    && Weighted(s[k..|s| - 1]) == z
  }

  /** The symbols of any codes are these. */
  lemma SymbolsPlain(codes: seq<int>, n: nat)
    requires Codes(codes, n)
    ensures PlainSymbols(Symbols(codes, n), codes, n)
  {
    hide ZeroRun, Weighted, Plain, Places, ListOf;
    var e := EncodeAll(codes, n);
    EncodedPlain(codes, n);
    ZeroRunValue(e.zeros);
    var s, k := Symbols(codes, n), |e.out|;
    assert s[..k] == e.out && s[k..|s| - 1] == ZeroRun(e.zeros);
    assert PlainRest(s, k, e.zeros) && Plain(s[..k], e.zeros, Places(codes, Initial(n)));
  }

  /** The decoder counts every digit d at place i as (d + 1) * 2^i. */
  lemma {:induction false} DigitsDecoded(d: Decoder, s: seq<int>)
    requires |d.list| > 0 && forall i :: 0 <= i < |s| ==> s[i] == 0 || s[i] == 1
    ensures SymbolsFit(s, |d.list|)
    ensures var r := DecodeFrom(d, s);
            r.run == d.run + d.weight * Weighted(s) && r.weight == d.weight * Pow2(|s|) && r.list == d.list && r.col == d.col
    decreases |s|
  {
    if s != [] {
      var t, d1 := s[1..], Decode1(d, s[0]);
      DigitsDecoded(d1, t);
      WeightedFront(s[0], t);
      assert [s[0]] + t == s;
      Factors(d.weight, s[0], Weighted(t), Pow2(|t|));
    }
  }

  lemma Factors(w: int, c: int, r: int, p: int)
    ensures w * (c + 1 + 2 * r) == (c + 1) * w + (2 * w) * r && w * (2 * p) == (2 * w) * p
  {
  }

  /** What a run of one and a run of two are written as. */
  lemma ShortRuns()
    ensures ZeroRun(1) == [0] && ZeroRun(2) == [1] && ZeroRun(3) == [0, 0]
  {
  }
}
