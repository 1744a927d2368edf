/**
  The sending half of dep/bzip2/compress.c: the header fields of BZ2_compressBlock (lines
  622-653) and sendMTFValues (lines 291-594), each writing exactly the bits BlockFormat gives it.
*/
module BlockWriter {
  import opened Common
  import opened BitIO
  import CC = CanonicalCode
  import opened Mtf
  import opened BlockFormat
  import opened BlockRoundTrip

  // ----- bits of numbers -----

  lemma OneBit(b: bool)
    ensures BitsOf(1, if b then 1 else 0) == [b]
  {
    assert BitsOf(0, 0) == [];
  }

  /** bsPutUChar. */
  method PutUChar(w: BitWriter, c: Byte)
    requires w.Valid()
    modifies w
    ensures w.Valid() && w.Contents() == old(w.Contents()) + BitsOf(8, c)
  {
    Pow2Eight();
    w.Write(8, c);
  }

  lemma FourBytes(u: nat)
    requires u < Pow2(32)
    ensures BitsOf(32, u) == BitsOf(8, u / 16777216 % 256) + BitsOf(8, u / 65536 % 256) + BitsOf(8, u / 256 % 256) + BitsOf(8, u % 256)
  {
    hide BitsOf, ValueOf;
    Pow2Eight();
    assert Pow2(16) == 65536 by { Pow2Add(8, 8); }
    assert Pow2(32) == 4294967296 by { Pow2Add(16, 16); }
    hide Pow2;
    var b3, b2, b1, b0 := u / 16777216 % 256, u / 65536 % 256, u / 256 % 256, u % 256;
    ValueOfBits(8, b3);
    ValueOfBits(8, b2);
    ValueOfBits(8, b1);
    ValueOfBits(8, b0);
    var x2 := BitsOf(8, b3) + BitsOf(8, b2);
    var x3 := x2 + BitsOf(8, b1);
    var x4 := x3 + BitsOf(8, b0);
    ValueConcat(BitsOf(8, b3), BitsOf(8, b2));
    ValueConcat(x2, BitsOf(8, b1));
    ValueConcat(x3, BitsOf(8, b0));
    BytesOf(u);
    BitsOfValue(x4);
  }

  lemma BytesOf(u: nat)
    requires u < 4294967296
    ensures (((u / 16777216 % 256) * 256 + u / 65536 % 256) * 256 + u / 256 % 256) * 256 + u % 256 == u
  {
    assert u / 65536 == u / 256 / 256 && u / 16777216 == u / 65536 / 256;
  }

  /** bsPutUInt32. */
  method PutUInt32(w: BitWriter, u: nat)
    requires w.Valid() && u < Pow2(32)
    modifies w
    ensures w.Valid() && w.Contents() == old(w.Contents()) + BitsOf(32, u)
  {
    hide BitsOf, Pow2;
    FourBytes(u);
    PutUChar(w, u / 16777216 % 256);
    PutUChar(w, u / 65536 % 256);
    PutUChar(w, u / 256 % 256);
    PutUChar(w, u % 256);
  }

  method PutBit(w: BitWriter, b: bool)
    requires w.Valid()
    modifies w
    ensures w.Valid() && w.Contents() == old(w.Contents()) + [b]
  {
    OneBit(b);
    w.Write(1, if b then 1 else 0);
  }

  // ----- the mapping table -----

  /** inUse16. */
  method MarkGroups(inUse: array<bool>) returns (inUse16: array<bool>)
    requires inUse.Length == 256
    ensures fresh(inUse16) && inUse16[..] == Groups(inUse[..])
  {
    hide AnyOf;
    ghost var u := inUse[..];
    inUse16 := new bool[16];
    for i := 0 to 16
      invariant forall k :: 0 <= k < i ==> inUse16[k] == Groups(u)[k]
    {
      inUse16[i] := AnyInUse(inUse, i);
    }
  }

  method AnyInUse(inUse: array<bool>, i: nat) returns (r: bool)
    requires inUse.Length == 256 && i < 16
    ensures r == AnyOf(inUse[16 * i..16 * i + 16])
  {
    r := false;
    ghost var g := inUse[16 * i..16 * i + 16];
    for j := 0 to 16
      invariant r == AnyOf(g[..j])
    {
      assert g[..j + 1][..j] == g[..j];
      if inUse[i * 16 + j] { r := true; }
    }
    assert g[..16] == g;
  }

  method SendGroups(w: BitWriter, inUse16: array<bool>)
    requires w.Valid() && inUse16.Length == 16
    modifies w
    ensures w.Valid() && w.Contents() == old(w.Contents()) + inUse16[..]
  {
    for i := 0 to 16
      invariant w.Valid() && w.Contents() == old(w.Contents()) + inUse16[..i]
    {
      PutBit(w, inUse16[i]);
      assert inUse16[..i + 1] == inUse16[..i] + [inUse16[i]];
    }
    assert inUse16[..16] == inUse16[..];
  }

  method SendMapping(w: BitWriter, inUse: array<bool>)
    requires w.Valid() && inUse.Length == 256
    modifies w
    ensures w.Valid() && w.Contents() == old(w.Contents()) + MappingBits(inUse[..])
  {
    hide BitsOf, MemberBits, Groups;
    ghost var u, c := inUse[..], w.Contents();
    var inUse16 := MarkGroups(inUse);
    SendGroups(w, inUse16);
    assert c + MappingBits(u) == (c + Groups(u)) + MemberBits(u, 0);
    for i := 0 to 16
      invariant inUse16[..] == Groups(u)
      invariant w.Valid() && w.Contents() + MemberBits(u, i) == c + MappingBits(u)
    {
      MembersNext(u, i);
      assert inUse16[..][i] == inUse16[i];
      if inUse16[i] {
        SendGroup(w, inUse, i);
      } else {
        assert [] + MemberBits(u, i + 1) == MemberBits(u, i + 1);
      }
    }
    MembersEnd(u);
    assert w.Contents() + [] == w.Contents();
  }

  lemma MembersNext(u: seq<bool>, i: nat)
    requires |u| == 256 && i < 16
    ensures MemberBits(u, i) == (if Groups(u)[i] then u[16 * i..16 * i + 16] else []) + MemberBits(u, i + 1)
  {
  }

  lemma MembersEnd(u: seq<bool>)
    requires |u| == 256
    ensures MemberBits(u, 16) == []
  {
  }

  method SendGroup(w: BitWriter, inUse: array<bool>, i: nat)
    requires w.Valid() && inUse.Length == 256 && i < 16
    modifies w
    ensures w.Valid() && w.Contents() == old(w.Contents()) + inUse[16 * i..16 * i + 16]
  {
    for j := 0 to 16
      invariant w.Valid() && w.Contents() == old(w.Contents()) + inUse[16 * i..16 * i + j]
    {
      PutBit(w, inUse[i * 16 + j]);
      assert inUse[16 * i..16 * i + j + 1] == inUse[16 * i..16 * i + j] + [inUse[i * 16 + j]];
    }
  }

  // ----- the selectors -----

  /** One step of the loop "Compute MTF values for the selectors". */
  method SelectorToFront(pos: array<int>, nGroups: int, ll: int) returns (j: int)
    requires 0 < nGroups <= pos.Length && ll in pos[..nGroups]
    modifies pos
    ensures 0 <= j < nGroups && j == Position(old(pos[..nGroups]), ll)
    ensures pos[..nGroups] == ToFront(old(pos[..nGroups]), j)
  {
    hide Position;
    ghost var p := pos[..nGroups];
    ghost var at := Position(p, ll);
    j := 0;
    var tmp := pos[j];
    while ll != tmp
      invariant 0 <= j <= at && tmp == p[j]
      invariant forall k :: 0 < k <= j ==> pos[k] == p[k - 1]
      invariant forall k :: j < k < nGroups ==> pos[k] == p[k]
      decreases at - j
    {
      j := j + 1;
      var tmp2 := tmp;
      tmp := pos[j];
      pos[j] := tmp2;
    }
    pos[0] := tmp;
  }

  /** The first i selectors are coded as `done`, and the list now stands as `pos`. */
  ghost predicate SelectorsCoded(sel: seq<int>, n: nat, i: int, done: seq<int>, pos: seq<int>) {
    && 0 <= i <= |sel| && ListOf(pos, n) && Selectors(sel, n)
    && done + SelectorMtf(sel[i..], pos) == SelectorMtf(sel, Initial(n))
  }

  lemma CodedStart(sel: seq<int>, n: nat)
    requires Selectors(sel, n)
    ensures SelectorsCoded(sel, n, 0, [], Initial(n))
  {
    assert sel[0..] == sel;
    assert [] + SelectorMtf(sel, Initial(n)) == SelectorMtf(sel, Initial(n));
  }

  lemma CodedNext(sel: seq<int>, n: nat, i: int, done: seq<int>, pos: seq<int>)
    requires SelectorsCoded(sel, n, i, done, pos) && i < |sel|
    ensures sel[i] in pos
    ensures var j := Position(pos, sel[i]); SelectorsCoded(sel, n, i + 1, done + [j], ToFront(pos, j))
  {
    hide SelectorMtf, Position, ToFront, ListOf;
    ListHas(pos, n, sel[i]);
    var j := Position(pos, sel[i]);
    assert |pos| == n by { ListSize(pos, n); }
    ToFrontListOf(pos, j, n);
    SelectorMtfNext(sel[i..], pos, j);
    assert sel[i..][1..] == sel[i + 1..];
    assert (done + [j]) + SelectorMtf(sel[i + 1..], ToFront(pos, j)) == done + SelectorMtf(sel[i..], pos);
  }

  lemma ListSize(list: seq<int>, n: nat)
    requires ListOf(list, n)
    ensures |list| == n
  {
  }

  lemma CodedEnd(sel: seq<int>, n: nat, done: seq<int>, pos: seq<int>)
    requires SelectorsCoded(sel, n, |sel|, done, pos)
    ensures done == SelectorMtf(sel, Initial(n))
  {
    hide ListOf, Selectors;
    SelectorMtfEnd(sel[|sel|..], pos);
    assert done + [] == done;
  }

  method InitPos(nGroups: nat) returns (pos: array<int>)
    requires nGroups <= 6
    ensures fresh(pos) && pos.Length == 6 && pos[..nGroups] == Initial(nGroups)
  {
    pos := new int[6];
    for i := 0 to nGroups
      invariant forall k :: 0 <= k < i ==> pos[k] == k
    {
      pos[i] := i;
    }
  }

  method ComputeSelectorMtf(selector: array<int>, selectorMtf: array<int>, nSelectors: int, nGroups: nat)
    requires selector != selectorMtf && 0 <= nSelectors <= selector.Length && nSelectors <= selectorMtf.Length
    requires Selectors(selector[..nSelectors], nGroups)
    modifies selectorMtf
    ensures selectorMtf[..nSelectors] == SelectorMtf(selector[..nSelectors], Initial(nGroups))
  {
    hide SelectorMtf, Position, ToFront, ListOf, SelectorsCoded;
    ghost var sel := selector[..nSelectors];
    var pos := InitPos(nGroups);
    CodedStart(sel, nGroups);
    assert selectorMtf[..0] == [];
    for i := 0 to nSelectors
      invariant SelectorsCoded(sel, nGroups, i, selectorMtf[..i], pos[..nGroups])
    {
      CodedNext(sel, nGroups, i, selectorMtf[..i], pos[..nGroups]);
      ghost var done := selectorMtf[..i];
      var j := SelectorToFront(pos, nGroups, selector[i]);
      selectorMtf[i] := j;
      assert selectorMtf[..i + 1] == done + [j];
    }
    CodedEnd(sel, nGroups, selectorMtf[..nSelectors], pos[..nGroups]);
  }

  lemma SelectorMtfNext(sel: seq<int>, pos: seq<int>, j: nat)
    requires sel != [] && sel[0] in pos && j == Position(pos, sel[0])
    ensures SelectorMtf(sel, pos) == [j] + SelectorMtf(sel[1..], ToFront(pos, j))
  {
  }

  lemma SelectorMtfEnd(sel: seq<int>, pos: seq<int>)
    requires sel == []
    ensures SelectorMtf(sel, pos) == []
  {
  }

  method SendUnaries(w: BitWriter, selectorMtf: array<int>, nSelectors: int, ghost m: seq<int>)
    requires w.Valid() && 0 <= nSelectors <= selectorMtf.Length && m == selectorMtf[..nSelectors]
    requires forall i :: 0 <= i < |m| ==> m[i] >= 0
    modifies w
    ensures w.Valid() && w.Contents() == old(w.Contents()) + UnaryAll(m)
  {
    hide BitsOf, UnaryAll, Unary;
    ghost var c := w.Contents();
    assert m[0..] == m;
    for i := 0 to nSelectors
      invariant w.Valid() && w.Contents() + UnaryAll(m[i..]) == c + UnaryAll(m)
    {
      UnaryAllNext(m, i);
      SendUnary(w, selectorMtf[i]);
    }
    UnaryAllEnd(m[nSelectors..]);
    assert w.Contents() + [] == w.Contents();
  }

  method SendSelectors(w: BitWriter, nGroups: nat, selectorMtf: array<int>, nSelectors: int, ghost sel: seq<int>)
    requires w.Valid() && 0 <= nSelectors <= selectorMtf.Length && |sel| == nSelectors
    requires Selectors(sel, nGroups) && selectorMtf[..nSelectors] == SelectorMtf(sel, Initial(nGroups))
    modifies w
    ensures w.Valid() && w.Contents() == old(w.Contents()) + SelectorBits(nGroups, sel)
  {
    hide BitsOf, UnaryAll, SelectorMtf;
    FieldSizes();
    w.Write(3, nGroups);
    w.Write(15, nSelectors);
    SendUnaries(w, selectorMtf, nSelectors, SelectorMtf(sel, Initial(nGroups)));
  }

  lemma UnaryAllNext(m: seq<int>, i: nat)
    requires i < |m| && m[i] >= 0
    ensures UnaryAll(m[i..]) == Unary(m[i]) + UnaryAll(m[i + 1..])
  {
    assert m[i..][1..] == m[i + 1..];
  }

  lemma UnaryAllEnd(m: seq<int>)
    requires m == []
    ensures UnaryAll(m) == []
  {
  }

  method SendUnary(w: BitWriter, n: int)
    requires w.Valid() && n >= 0
    modifies w
    ensures w.Valid() && w.Contents() == old(w.Contents()) + Unary(n)
  {
    ghost var c := w.Contents();
    for j := 0 to n
      invariant w.Valid() && w.Contents() + Unary(n - j) == c + Unary(n)
    {
      PutBit(w, true);
    }
    PutBit(w, false);
  }

  // ----- the coding tables -----

  method SendTable(w: BitWriter, len: array<int>, alphaSize: int)
    requires w.Valid() && 0 < alphaSize <= len.Length && CC.Lengths(len[..alphaSize])
    modifies w
    ensures w.Valid() && w.Contents() == old(w.Contents()) + TableBits(len[..alphaSize])
  {
    hide BitsOf, LengthBits;
    ghost var l := len[..alphaSize];
    var curr := len[0];
    FieldSizes();
    w.Write(5, curr);
    ghost var c := w.Contents();
    assert l[0..] == l;
    for i := 0 to alphaSize
      invariant 1 <= curr <= CC.LONGEST
      invariant w.Valid() && w.Contents() + LengthBits(curr, l[i..]) == c + LengthBits(len[0], l)
    {
      LengthBitsNext(curr, l, i);
      curr := SendLength(w, curr, len[i]);
    }
    LengthBitsEnd(curr, l[alphaSize..]);
    assert w.Contents() + [] == w.Contents();
  }

  lemma LengthBitsNext(curr: int, l: seq<int>, i: nat)
    requires i < |l|
    ensures LengthBits(curr, l[i..]) == DeltaBits(curr, l[i]) + LengthBits(l[i], l[i + 1..])
  {
    assert l[i..][1..] == l[i + 1..];
  }

  lemma LengthBitsEnd(curr: int, l: seq<int>)
    requires l == []
    ensures LengthBits(curr, l) == []
  {
  }

  lemma TwoBits()
    ensures BitsOf(2, 2) == [true, false] && BitsOf(2, 3) == [true, true]
  {
    assert BitsOf(0, 0) == [] && BitsOf(1, 1) == [true];
  }

  lemma DeltaNext(curr: int, goal: int)
    ensures curr < goal ==> DeltaBits(curr, goal) == [true, false] + DeltaBits(curr + 1, goal)
    ensures curr > goal ==> DeltaBits(curr, goal) == [true, true] + DeltaBits(curr - 1, goal)
    ensures curr == goal ==> DeltaBits(curr, goal) == [false]
  {
  }

  /** The two loops that send one code length as steps from the previous one. */
  method SendLength(w: BitWriter, curr0: int, goal: int) returns (curr: int)
    requires w.Valid()
    modifies w
    ensures w.Valid() && w.Contents() == old(w.Contents()) + DeltaBits(curr0, goal) && curr == goal
  {
    hide BitsOf, DeltaBits;
    ghost var c := w.Contents();
    TwoBits();
    curr := curr0;
    while curr < goal
      invariant w.Valid() && w.Contents() + DeltaBits(curr, goal) == c + DeltaBits(curr0, goal)
      invariant curr == curr0 || curr <= goal
      decreases goal - curr
    {
      DeltaNext(curr, goal);
      w.Write(2, 2);
      curr := curr + 1;
    }
    while curr > goal
      invariant w.Valid() && w.Contents() + DeltaBits(curr, goal) == c + DeltaBits(curr0, goal) && curr >= goal
      decreases curr - goal
    {
      DeltaNext(curr, goal);
      w.Write(2, 3);
      curr := curr - 1;
    }
    DeltaNext(curr, goal);
    PutBit(w, false);
  }
}
