/**
  The decoding tables (dep/bzip2/decompress.c, lines 331-347) and reading a code through them, bit
  by bit (GET_MTF_VAL, lines 74-102). What is read does not depend on what the arrays hold outside
  the part that BZ2_hbCreateDecodeTables fills: any two tables for the same lengths behave alike.
*/
module DecodeTables {
  import opened Common
  import opened BitIO
  import opened Counting
  import HT = HuffmanTree
  import opened CanonicalCode

  function MinLen(len: seq<int>): int
  {
    if len == [] then 32 else Min(MinLen(len[..|len| - 1]), len[|len| - 1])
  }

  function MaxLen(len: seq<int>): int {
    if len == [] then 0 else Max(MaxLen(len[..|len| - 1]), len[|len| - 1])
  }

  /** The symbols with codes of length n, in order. */
  function SymbolsOf(len: seq<int>, n: int): seq<int> {
    if len == [] then [] else SymbolsOf(len[..|len| - 1], n) + if len[|len| - 1] == n then [|len| - 1] else []
  }

  /** perm: the symbols by code length, up to length n. */
  function PermOf(len: seq<int>, n: nat): seq<int> {
    if n == 0 then [] else PermOf(len, n - 1) + SymbolsOf(len, n)
  }

  /** One table for the lengths, as a value: zero wherever nothing is filled in. */
  function TablesOf(len: seq<int>): Tables {
    var lo, hi := MinLen(len), MaxLen(len);
    Tables(
      seq(258, n => if 0 <= lo <= n <= hi then FirstCode(len, n) + Count(len, n) - 1 else 0),
      seq(258, n => if 0 <= lo <= n <= hi then FirstCode(len, n) - Less(len, n) else 0),
      PermOf(len, LONGEST) + seq(258, _ => 0),
      lo)
  }

  lemma {:induction false} LengthRange(len: seq<int>)
    requires Lengths(len) && len != []
    ensures 1 <= MinLen(len) <= MaxLen(len) <= LONGEST
    ensures forall i :: 0 <= i < |len| ==> MinLen(len) <= len[i] <= MaxLen(len)
  {
    if |len| > 1 { LengthRange(len[..|len| - 1]); }
  }

  lemma {:induction false} SymbolsListed(len: seq<int>, n: int)
    ensures |SymbolsOf(len, n)| == Count(len, n)
    ensures forall i :: 0 <= i < |len| && len[i] == n ==>
              Count(len[..i], n) < Count(len, n) && SymbolsOf(len, n)[Count(len[..i], n)] == i
  {
    if len != [] {
      var t := len[..|len| - 1];
      SymbolsListed(t, n);
      forall i | 0 <= i < |len| && len[i] == n
        ensures Count(len[..i], n) < Count(len, n) && SymbolsOf(len, n)[Count(len[..i], n)] == i
      {
        if i < |t| { assert t[i] == n && t[..i] == len[..i]; }
      }
    }
  }

  lemma {:induction false} PermListed(len: seq<int>, n: nat)
    requires Lengths(len)
    ensures |PermOf(len, n)| == Less(len, n + 1)
    ensures forall i :: 0 <= i < |len| && len[i] <= n ==>
              Slot(len, i) < Less(len, n + 1) && PermOf(len, n)[Slot(len, i)] == i
    decreases n
  {
    hide Slot;
    if n == 0 {
      LessAll(len, 1);
    } else {
      PermListed(len, n - 1);
      PermNext(len, n);
    }
  }

  lemma PermNext(len: seq<int>, n: nat)
    requires n > 0 && |PermOf(len, n - 1)| == Less(len, n)
    requires forall i :: 0 <= i < |len| && len[i] < n ==>
               Slot(len, i) < Less(len, n) && PermOf(len, n - 1)[Slot(len, i)] == i
    ensures |PermOf(len, n)| == Less(len, n + 1)
    ensures forall i :: 0 <= i < |len| && len[i] <= n ==>
              Slot(len, i) < Less(len, n + 1) && PermOf(len, n)[Slot(len, i)] == i
  {
    hide Count, Less, SymbolsOf;
    SymbolsListed(len, n);
    LessNext(len, n);
    assert PermOf(len, n) == PermOf(len, n - 1) + SymbolsOf(len, n);
  }

  lemma TablesOfLengths(len: seq<int>)
    requires Lengths(len) && len != []
    ensures TablesFor(TablesOf(len), len, MaxLen(len))
  {
    hide FirstCode, PermOf, Slot, Count, Less, MinLen, MaxLen;
    LengthRange(len);
    PermListed(len, LONGEST);
    LessAll(len, LONGEST + 1);
  }

  // ----- one look at a table -----

  datatype Found = Sym(sym: int) | Longer | NoCode

  /** One round of the loop of GET_MTF_VAL, with zn bits read: a symbol, or one more bit is needed, or an error. */
  function Lookup(tab: Tables, zn: int, zvec: int): Found {
    if zn > LONGEST || zn < 0 || zn >= |tab.limit| || zn >= |tab.base| then NoCode
    else if zvec > tab.limit[zn] then Longer
    else
      var k := zvec - tab.base[zn];
      if k < 0 || k >= 258 || k >= |tab.perm| then NoCode else Sym(tab.perm[k])
  }

  /** Behind the longest code there is a value that no prefix reaches. */
  lemma {:induction false} LongestUsed(len: seq<int>)
    requires Lengths(len) && len != []
    ensures Count(len, MaxLen(len)) > 0
  {
    CountMax(len);
    CountIn(len, MaxLen(len));
  }

  lemma {:induction false} CountMax(len: seq<int>)
    requires Lengths(len) && len != []
    ensures MaxLen(len) in len
  {
    var t, x := len[..|len| - 1], len[|len| - 1];
    assert x in len;
    if t != [] {
      CountMax(t);
      var i :| 0 <= i < |t| && t[i] == MaxLen(t);
      assert len[i] == t[i];
    }
  }

  lemma PermSlots(tab: Tables, len: seq<int>, mx: int)
    requires TablesFor(tab, len, mx)
    ensures InverseSlots(len, tab.perm[..|len|])
  {
    hide Slot;
  }

  /** zn bits that are no code and no prefix of a shorter one lie in the range of length zn, or beyond it. */
  lemma LookupRange(tab: Tables, len: seq<int>, zn: nat, zvec: nat)
    requires TablesFor(tab, len, MaxLen(len)) && len != [] && |len| <= 258
    requires tab.minLen <= zn <= LONGEST && FirstCode(len, zn) <= zvec
    ensures zvec <= tab.limit[zn] ==> zn <= MaxLen(len) && 0 <= zvec - tab.base[zn] < |len|
    ensures zvec > tab.limit[zn] <==> zvec >= Occupied(len, zn)
  {
    hide FirstCode, Slot, Less, Count, MaxLen;
    var mx := MaxLen(len);
    if zn <= mx {
      LessNext(len, zn);
    } else {
      LongestUsed(len);
      Continue(len, mx, zn);
      AtLeastOne(Occupied(len, mx), Pow2(zn - mx));
      CountNone(len, zn);
    }
  }

  lemma AtLeastOne(a: int, b: int)
    requires a >= 1 && b >= 1
    ensures a * b >= 1
  {
  }

  lemma CountNone(len: seq<int>, n: int)
    requires forall i :: 0 <= i < |len| ==> len[i] < n
    ensures Count(len, n) == 0
  {
    CountIn(len, n);
  }

  /**
    Two tables for the same lengths give the same answer to every prefix the loop can have read, of
    whatever bits: perm is never read behind its symbols, limit and base never where they are stale.
  */
  lemma LookupAlike(t1: Tables, t2: Tables, len: seq<int>, zn: nat, zvec: nat)
    requires TablesFor(t1, len, MaxLen(len)) && TablesFor(t2, len, MaxLen(len)) && t1.minLen == t2.minLen
    requires len != [] && |len| <= 258 && t1.minLen <= zn && FirstCode(len, zn) <= zvec
    ensures Lookup(t1, zn, zvec) == Lookup(t2, zn, zvec)
    ensures Lookup(t1, zn, zvec).Longer? ==> zn <= LONGEST && FirstCode(len, zn + 1) <= 2 * zvec
    ensures Lookup(t1, zn, zvec).Sym? ==> 0 <= Lookup(t1, zn, zvec).sym < |len|
  {
    hide FirstCode, Slot, MaxLen, Less, Count, InverseSlots;
    if zn <= LONGEST {
      LookupRange(t1, len, zn, zvec);
      LookupRange(t2, len, zn, zvec);
      FirstCodeNext(len, zn);
      PermSlots(t1, len, MaxLen(len));
      PermSlots(t2, len, MaxLen(len));
      OneInverse(len, t1.perm[..|len|], t2.perm[..|len|]);
      InverseRange(len, t1.perm[..|len|]);
      if zvec <= t1.limit[zn] {
        var k := zvec - t1.base[zn];
        assert t1.perm[..|len|][k] == t2.perm[..|len|][k];
      }
    }
  }

  lemma InverseRange(key: seq<int>, p: seq<int>)
    requires InverseSlots(key, p)
    ensures forall s :: 0 <= s < |p| ==> 0 <= p[s] < |key|
  {
    InverseSlotsStable(key, p);
  }

  // ----- one code -----

  ghost function CodeBits(len: seq<int>, sym: int): Bits
    requires 0 <= sym < |len| && len[sym] >= 0
  {
    BitsOf(len[sym], Code(len, sym))
  }

  lemma CodeFits(len: seq<int>, sym: nat)
    requires Lengths(len) && HT.Kraft(len, LONGEST) <= Pow2(LONGEST) && sym < |len|
    ensures Code(len, sym) < Pow2(len[sym])
  {
    CodeBelow(len, sym);
    CodesFit(len, LONGEST, len[sym]);
  }

  /** The first n bits of a code word bracket it. */
  lemma Bracket(w: Bits, n: nat)
    requires n <= |w|
    ensures var z := ValueOf(w[..n]);
            z * Pow2(|w| - n) <= ValueOf(w) < (z + 1) * Pow2(|w| - n)
  {
    hide Pow2, ValueOf;
    assert w == w[..n] + w[n..];
    ValueConcat(w[..n], w[n..]);
    OneMore(ValueOf(w[..n]), Pow2(|w| - n));
  }

  lemma OneMore(z: int, p: int)
    ensures (z + 1) * p == z * p + p
  {
  }

  // ----- the loop -----

  /** The loop of GET_MTF_VAL from zn bits on, all bits being at hand: what it finds, and what it leaves. */
  function GetCode(tab: Tables, zn: int, zvec: int, bits: Bits): (Found, Bits)
    decreases |bits|
  {
    var f := Lookup(tab, zn, zvec);
    if f.Longer? && bits != [] then GetCode(tab, zn + 1, 2 * zvec + (if bits[0] then 1 else 0), bits[1..])
    else (f, bits)
  }

  lemma PrefixNext(w: Bits, n: nat)
    requires n < |w|
    ensures ValueOf(w[..n + 1]) == 2 * ValueOf(w[..n]) + if w[n] then 1 else 0
  {
    assert w[..n + 1][..n] == w[..n];
  }

  lemma LengthBounds(tab: Tables, len: seq<int>, mx: int, sym: nat)
    requires TablesFor(tab, len, mx) && sym < |len|
    ensures 1 <= tab.minLen <= len[sym] <= LONGEST && |tab.limit| > LONGEST && |tab.base| > LONGEST && |len| <= |tab.perm|
  {
  }

  lemma GetCodeStep(tab: Tables, zn: int, zvec: int, bits: Bits)
    requires Lookup(tab, zn, zvec).Longer? && bits != []
    ensures GetCode(tab, zn, zvec, bits) == GetCode(tab, zn + 1, 2 * zvec + (if bits[0] then 1 else 0), bits[1..])
  {
  }

  lemma GetCodeStop(tab: Tables, zn: int, zvec: int, bits: Bits)
    requires !Lookup(tab, zn, zvec).Longer?
    ensures GetCode(tab, zn, zvec, bits) == (Lookup(tab, zn, zvec), bits)
  {
  }

  lemma {:induction false} CodeReadFrom(tab: Tables, len: seq<int>, mx: int, sym: nat, w: Bits, n: nat, rest: Bits)
    requires TablesFor(tab, len, mx) && sym < |len| <= 258
    requires |w| == len[sym] && ValueOf(w) == Code(len, sym) && tab.minLen <= n <= len[sym]
    ensures GetCode(tab, n, ValueOf(w[..n]), w[n..] + rest) == (Sym(sym), rest)
    decreases len[sym] - n
  {
    hide ValueOf, Code, Slot, GetCode, TablesFor;
    LengthBounds(tab, len, mx, sym);
    if n == len[sym] {
      LookUp(tab, len, mx, sym);
      GetCodeStop(tab, n, ValueOf(w), rest);
      assert w[..n] == w && w[n..] + rest == rest;
    } else {
      Bracket(w, n);
      ReadOn(tab, len, mx, sym, n, ValueOf(w[..n]));
      var tail := w[n..] + rest;
      assert tail[0] == w[n] && tail[1..] == w[n + 1..] + rest;
      PrefixNext(w, n);
      GetCodeStep(tab, n, ValueOf(w[..n]), tail);
      CodeReadFrom(tab, len, mx, sym, w, n + 1, rest);
    }
  }

  /**
    The canonical code round trip, for every table BZ2_hbCreateDecodeTables may leave: the code of
    a symbol is read as that symbol, exactly its bits consumed, whatever bits follow.
  */
  lemma CodeRead(tab: Tables, len: seq<int>, mx: int, sym: nat, rest: Bits)
    requires TablesFor(tab, len, mx) && sym < |len| <= 258 && HT.Kraft(len, LONGEST) <= Pow2(LONGEST)
    ensures var w := CodeBits(len, sym);
            |w| == len[sym] >= tab.minLen
            && GetCode(tab, tab.minLen, ValueOf(w[..tab.minLen]), w[tab.minLen..] + rest) == (Sym(sym), rest)
  {
    hide ValueOf, Code, Slot, HT.Kraft, Pow2, BitsOf;
    CodeFits(len, sym);
    ValueOfBits(len[sym], Code(len, sym));
    CodeReadFrom(tab, len, mx, sym, CodeBits(len, sym), tab.minLen, rest);
  }

  // ----- the tables in their arrays -----

  /** The minimum and maximum of the lengths. */
  method LengthExtremes(length: array<int>, alphaSize: int) returns (minLen: int, maxLen: int)
    requires 0 <= alphaSize <= length.Length
    ensures minLen == MinLen(length[..alphaSize]) && maxLen == MaxLen(length[..alphaSize])
  {
    ghost var len := length[..alphaSize];
    minLen, maxLen := 32, 0;
    for i := 0 to alphaSize
      invariant minLen == MinLen(len[..i]) && maxLen == MaxLen(len[..i])
    {
      assert len[..i + 1][..i] == len[..i];
      if length[i] > maxLen { maxLen := length[i]; }
      if length[i] < minLen { minLen := length[i]; }
    }
    assert len[..alphaSize] == len;
  }

  /** limit, base and perm for one set of lengths. */
  method BuildTable(limit: array<int>, base: array<int>, perm: array<int>, lens: seq<int>) returns (minLen: int)
    requires limit != base && limit != perm && base != perm
    requires limit.Length == base.Length == perm.Length == 258 && 0 < |lens| <= 258 && Lengths(lens)
    modifies limit, base, perm
    ensures minLen == MinLen(lens)
    ensures TablesFor(Tables(limit[..], base[..], perm[..], minLen), lens, MaxLen(lens))
  {
    hide TablesFor, MinLen, MaxLen;
    var length := new int[|lens|](i requires 0 <= i < |lens| => lens[i]);
    assert length[..|lens|] == lens;
    var maxLen;
    minLen, maxLen := LengthExtremes(length, |lens|);
    LengthRange(lens);
    CreateDecodeTables(limit, base, perm, length, minLen, maxLen, |lens|);
    assert length[..|lens|] == lens;
  }
}
