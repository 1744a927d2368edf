/**
  Bit streams: the writer (bsW, bsFinishWrite: dep/bzip2/compress.c, lines 37-97) and the
  resumable reader (GET_BITS: dep/bzip2/decompress.c, lines 43-65). A 32-bit buffer word is the
  sequence of its bits, most significant first.
*/
module BitIO {
  import opened Common

  type Bits = seq<bool>
  type Word = w: seq<bool> | |w| == 32 witness seq(32, i => false)

  /** The n low bits of v, most significant first. */
  function BitsOf(n: nat, v: nat): (b: Bits)
    ensures |b| == n
  {
    if n == 0 then [] else BitsOf(n - 1, v / 2) + [v % 2 == 1]
  }

  function ValueOf(b: Bits): (v: nat)
    ensures v < Pow2(|b|)
  {
    if b == [] then 0 else 2 * ValueOf(b[..|b| - 1]) + if b[|b| - 1] then 1 else 0
  }

  lemma {:induction false} ValueOfBits(n: nat, v: nat)
    requires v < Pow2(n)
    ensures ValueOf(BitsOf(n, v)) == v
  {
    if n > 0 {
      ValueOfBits(n - 1, v / 2);
      assert BitsOf(n, v)[..n - 1] == BitsOf(n - 1, v / 2);
    }
  }

  lemma {:induction false} BitsOfValue(b: Bits)
    ensures BitsOf(|b|, ValueOf(b)) == b
  {
    if b != [] {
      BitsOfValue(b[..|b| - 1]);
      assert b == b[..|b| - 1] + [b[|b| - 1]];
    }
  }

  function Zeros(n: nat): (b: Bits)
    ensures |b| == n && forall i :: 0 <= i < n ==> !b[i]
  {
    seq(n, _ => false)
  }

  /** A small value has leading zeros. */
  lemma {:induction false} LeadingZeros(n: nat, m: nat, v: nat)
    requires n <= m && v < Pow2(n)
    ensures BitsOf(m, v) == Zeros(m - n) + BitsOf(n, v)
  {
    if n == 0 {
      ZeroBits(m);
      assert BitsOf(m, v) == Zeros(m) + [];
    } else {
      LeadingZeros(n - 1, m - 1, v / 2);
      assert Zeros(m - n) + BitsOf(n - 1, v / 2) + [v % 2 == 1] == Zeros(m - n) + BitsOf(n, v);
    }
  }

  lemma {:induction false} ZeroBits(m: nat)
    ensures BitsOf(m, 0) == Zeros(m)
  {
    if m > 0 {
      ZeroBits(m - 1);
      assert Zeros(m) == Zeros(m - 1) + [false];
    }
  }

  lemma {:induction false} ValueConcat(a: Bits, b: Bits)
    ensures ValueOf(a + b) == ValueOf(a) * Pow2(|b|) + ValueOf(b)
  {
    if b == [] {
      assert a + b == a;
    } else {
      var k := |b| - 1;
      ValueConcat(a, b[..k]);
      assert (a + b)[..|a + b| - 1] == a + b[..k];
      assert (a + b)[|a + b| - 1] == b[k];
      ConcatStep(ValueOf(a), Pow2(k), ValueOf(b[..k]), if b[k] then 1 else 0);
    }
  }

  lemma ConcatStep(x: int, p: int, y: int, t: int)
    ensures 2 * (x * p + y) + t == x * (2 * p) + (2 * y + t)
  {
  }

  // ----- bytes -----

  /** The bits of a byte sequence. */
  function Unpacked(s: seq<Byte>): (b: Bits)
    ensures |b| == 8 * |s|
  {
    if s == [] then [] else Unpacked(s[..|s| - 1]) + BitsOf(8, s[|s| - 1])
  }

  lemma {:induction false} UnpackedConcat(a: seq<Byte>, b: seq<Byte>)
    ensures Unpacked(a + b) == Unpacked(a) + Unpacked(b)
  {
    if b == [] {
      assert a + b == a;
    } else {
      UnpackedConcat(a, b[..|b| - 1]);
      assert (a + b)[..|a + b| - 1] == a + b[..|b| - 1];
    }
  }

  lemma UnpackedFirst(s: seq<Byte>)
    requires s != []
    ensures Unpacked(s) == BitsOf(8, s[0]) + Unpacked(s[1..])
  {
    assert s == [s[0]] + s[1..];
    UnpackedConcat([s[0]], s[1..]);
    assert [s[0]][..0] == [];
    assert Unpacked([s[0]]) == Unpacked([]) + BitsOf(8, s[0]);
  }

  lemma Pow2Eight()
    ensures Pow2(8) == 256
  {
  }

  // ----- word operations -----

  function Shl(w: Word, k: nat): Word
    requires k <= 32
  {
    w[k..] + Zeros(k)
  }

  function Or(a: Word, b: Word): Word {
    seq(32, (i: int) requires 0 <= i < 32 => a[i] || b[i])
  }

  /** The or of bsW puts the n bits of v right behind the live bits. */
  lemma Appended(w: Word, live: int, n: nat, v: nat)
    requires 0 <= live && live + n <= 32 && v < Pow2(n) && forall i :: live <= i < 32 ==> !w[i]
    ensures var w' := Or(w, Shl(BitsOf(32, v), 32 - live - n));
            && w'[..live + n] == w[..live] + BitsOf(n, v)
            && forall i :: live + n <= i < 32 ==> !w'[i]
  {
    hide BitsOf, Pow2;
    LeadingZeros(n, 32, v);
    var x := Shl(BitsOf(32, v), 32 - live - n);
    assert x == (Zeros(live) + BitsOf(n, v)) + Zeros(32 - live - n);
    var w' := Or(w, x);
    forall i | 0 <= i < live + n ensures w'[i] == (w[..live] + BitsOf(n, v))[i] {
      if live <= i { assert x[i] == BitsOf(n, v)[i - live]; }
    }
  }

  /** The or of GET_BITS puts a byte right behind the live bits, which are the lowest. */
  lemma TakenIn(w: Word, live: int, c: Byte)
    requires 0 <= live <= 24
    ensures Or(Shl(w, 8), BitsOf(32, c))[32 - (live + 8)..] == w[32 - live..] + BitsOf(8, c)
  {
    hide BitsOf, Pow2;
    Pow2Eight();
    LeadingZeros(8, 32, c);
    var y, u := Or(Shl(w, 8), BitsOf(32, c)), w[32 - live..] + BitsOf(8, c);
    forall i | 0 <= i < live + 8 ensures y[24 - live + i] == u[i] {
      if live <= i { assert BitsOf(32, c)[24 - live + i] == BitsOf(8, c)[i - live]; }
    }
  }

  // ----- the writer -----

  class BitWriter {
    var bsBuff: Word
    var bsLive: int
    var zbits: seq<Byte>

    ghost predicate Valid()
      reads this
    {
      0 <= bsLive <= 32 && forall i :: bsLive <= i < 32 ==> !bsBuff[i]
    }

    /** The bits written so far. */
    ghost function Contents(): Bits
      reads this
      requires Valid()
    {
      Unpacked(zbits) + bsBuff[..bsLive]
    }

    /** BZ2_bsInitWrite on an empty output area. */
    constructor ()
      ensures Valid() && Contents() == [] && zbits == []
    {
      bsLive := 0;
      bsBuff := Zeros(32);
      zbits := [];
    }

    /** One round of bsNEEDW and of bsFinishWrite: the top byte goes out. */
    method PutByte()
      requires Valid() && bsLive >= 8
      modifies this
      ensures Valid() && bsLive == old(bsLive) - 8 && Contents() == old(Contents())
    {
      hide Pow2, ValueOf, BitsOf;
      ghost var top := bsBuff[..8];
      Pow2Eight();
      BitsOfValue(top);
      ghost var z := zbits;
      zbits := zbits + [ValueOf(bsBuff[..8])];
      assert zbits[..|zbits| - 1] == z;
      assert bsBuff[..bsLive] == top + bsBuff[8..bsLive];
      bsBuff := Shl(bsBuff, 8);
      bsLive := bsLive - 8;
    }

    /** bsNEEDW. */
    method Need()
      requires Valid()
      modifies this
      ensures Valid() && bsLive < 8 && Contents() == old(Contents())
    {
      while bsLive >= 8
        invariant Valid() && Contents() == old(Contents())
        decreases bsLive
      {
        PutByte();
      }
    }

    /** bsW. */
    method Write(n: nat, v: nat)
      requires Valid() && n <= 24 && v < Pow2(n)
      modifies this
      ensures Valid() && Contents() == old(Contents()) + BitsOf(n, v)
    {
      hide Pow2, BitsOf, Unpacked;
      Need();
      ghost var live := bsBuff[..bsLive];
      Appended(bsBuff, bsLive, n, v);
      bsBuff := Or(bsBuff, Shl(BitsOf(32, v), 32 - bsLive - n));
      bsLive := bsLive + n;
      assert Unpacked(zbits) + (live + BitsOf(n, v)) == (Unpacked(zbits) + live) + BitsOf(n, v);
    }

    /** The round of bsFinishWrite that writes a byte of which only the top is live. */
    method PutLast()
      requires Valid() && 0 < bsLive < 8
      modifies this
      ensures bsLive == old(bsLive) - 8 && Unpacked(zbits) == old(Contents()) + Zeros(-bsLive)
    {
      hide Pow2, ValueOf, BitsOf;
      ghost var top, z, c := bsBuff[..8], zbits, Contents();
      Pow2Eight();
      BitsOfValue(top);
      assert top == bsBuff[..bsLive] + Zeros(8 - bsLive);
      zbits := zbits + [ValueOf(bsBuff[..8])];
      assert zbits[..|zbits| - 1] == z;
      assert Unpacked(z) + (bsBuff[..bsLive] + Zeros(8 - bsLive)) == c + Zeros(8 - bsLive);
      bsBuff := Shl(bsBuff, 8);
      bsLive := bsLive - 8;
    }

    /** bsFinishWrite: the last bits go out, padded with zeros to a whole byte. */
    method Finish()
      requires Valid()
      modifies this
      ensures bsLive <= 0
      ensures exists pad :: 0 <= pad < 8 && Unpacked(zbits) == old(Contents()) + Zeros(pad)
    {
      ghost var c := Contents();
      assert c + Zeros(0) == c;
      while bsLive > 0
        invariant -8 < bsLive <= 32
        invariant bsLive >= 0 ==> Valid() && Contents() == c
        invariant bsLive <= 0 ==> Unpacked(zbits) == c + Zeros(-bsLive)
        decreases bsLive
      {
        if bsLive >= 8 {
          PutByte();
          assert bsLive == 0 ==> bsBuff[..bsLive] == [];
        } else {
          PutLast();
        }
      }
    }
  }

  // ----- the reader -----

  class BitReader {
    var bsBuff: Word
    var bsLive: int
    var input: seq<Byte>   // next_in[0 .. avail_in]

    ghost predicate Valid()
      reads this
    {
      0 <= bsLive <= 32
    }

    /** The bits still to be read: the live ones, then the input supplied so far. */
    ghost function Pending(): Bits
      reads this
      requires Valid()
    {
      bsBuff[32 - bsLive..] + Unpacked(input)
    }

    constructor ()
      ensures Valid() && Pending() == []
    {
      bsLive := 0;
      bsBuff := Zeros(32);
      input := [];
    }

    /** The caller supplies more input. */
    method Supply(chunk: seq<Byte>)
      requires Valid()
      modifies this
      ensures Valid() && Pending() == old(Pending()) + Unpacked(chunk)
    {
      UnpackedConcat(input, chunk);
      input := input + chunk;
    }

    /** One byte of input moves into the buffer. */
    method TakeByte()
      requires Valid() && bsLive <= 24 && input != []
      modifies this
      ensures Valid() && Pending() == old(Pending())
      ensures bsLive == old(bsLive) + 8 && input == old(input)[1..]
    {
      UnpackedFirst(input);
      ghost var live := bsBuff[32 - bsLive..];
      TakenIn(bsBuff, bsLive, input[0]);
      bsBuff := Or(Shl(bsBuff, 8), BitsOf(32, input[0]));
      bsLive := bsLive + 8;
      input := input[1..];
    }

    /**
      GET_BITS: either the next n bits, or, when the input runs out first, a suspension that
      loses nothing.
    */
    method GetBits(n: nat) returns (ok: bool, v: nat)
      requires Valid() && n <= 24
      modifies this
      ensures Valid()
      ensures ok <==> |old(Pending())| >= n
      ensures ok ==> v == ValueOf(old(Pending())[..n]) && Pending() == old(Pending())[n..]
      ensures !ok ==> Pending() == old(Pending()) && input == []
    {
      while true
        invariant Valid() && Pending() == old(Pending())
        decreases |input|
      {
        if bsLive >= n {
          ghost var p := Pending();
          assert bsBuff[32 - bsLive..32 - bsLive + n] == p[..n];
          v := ValueOf(bsBuff[32 - bsLive..32 - bsLive + n]);
          bsLive := bsLive - n;
          assert Pending() == p[n..];
          return true, v;
        }
        if input == [] { return false, 0; }
        TakeByte();
      }
    }
  }

  /** What was written with bsW is what GET_BITS returns, and the rest of the stream follows. */
  lemma WriteRead(n: nat, v: nat, rest: Bits)
    requires v < Pow2(n)
    ensures ValueOf((BitsOf(n, v) + rest)[..n]) == v && (BitsOf(n, v) + rest)[n..] == rest
  {
    ValueOfBits(n, v);
    assert (BitsOf(n, v) + rest)[..n] == BitsOf(n, v);
  }

  // ----- many fields -----

  /** n bits that carry v. */
  datatype Field = Field(n: nat, v: nat)

  ghost predicate Writable(fields: seq<Field>) {
    forall i :: 0 <= i < |fields| ==> fields[i].n <= 24 && fields[i].v < Pow2(fields[i].n)
  }

  ghost function FieldBits(fields: seq<Field>): Bits {
    if fields == [] then [] else BitsOf(fields[0].n, fields[0].v) + FieldBits(fields[1..])
  }

  lemma FieldsFrom(fields: seq<Field>, i: nat)
    requires i < |fields|
    ensures FieldBits(fields[i..]) == BitsOf(fields[i].n, fields[i].v) + FieldBits(fields[i + 1..])
  {
    assert fields[i..][1..] == fields[i + 1..];
  }

  method WriteAll(w: BitWriter, fields: seq<Field>)
    requires w.Valid() && Writable(fields)
    modifies w
    ensures w.Valid() && w.Contents() == old(w.Contents()) + FieldBits(fields)
  {
    hide FieldBits, BitsOf, Pow2, BitWriter.Valid, BitWriter.Contents;
    ghost var all := w.Contents() + FieldBits(fields);
    assert fields[0..] == fields;
    for i := 0 to |fields|
      invariant w.Valid() && w.Contents() + FieldBits(fields[i..]) == all
    {
      FieldsFrom(fields, i);
      ghost var c := w.Contents();
      w.Write(fields[i].n, fields[i].v);
      assert c + (BitsOf(fields[i].n, fields[i].v) + FieldBits(fields[i + 1..])) == w.Contents() + FieldBits(fields[i + 1..]);
    }
    NoFields();
    assert fields[|fields|..] == [] && w.Contents() + [] == w.Contents();
  }

  lemma NoFields()
    ensures FieldBits([]) == []
  {
  }

  /** One field is asked for again and again, with more input after every suspension. */
  method ReadField(r: BitReader, n: nat, bytes0: seq<Byte>, cuts0: seq<nat>) returns (v: nat, bytes: seq<Byte>, cuts: seq<nat>)
    requires r.Valid() && n <= 24 && |r.Pending() + Unpacked(bytes0)| >= n
    modifies r
    ensures r.Valid() && v == ValueOf(old(r.Pending() + Unpacked(bytes0))[..n])
    ensures r.Pending() + Unpacked(bytes) == old(r.Pending() + Unpacked(bytes0))[n..]
  {
    hide Unpacked, ValueOf, BitReader.Valid, BitReader.Pending;
    bytes, cuts := bytes0, cuts0;
    ghost var all := r.Pending() + Unpacked(bytes);
    while true
      invariant r.Valid() && r.Pending() + Unpacked(bytes) == all
      decreases |cuts|, |bytes|
    {
      ghost var p := r.Pending();
      var ok;
      ok, v := r.GetBits(n);
      if ok {
        assert (p + Unpacked(bytes))[..n] == p[..n] && (p + Unpacked(bytes))[n..] == r.Pending() + Unpacked(bytes);
        return;
      }
      var k := if cuts == [] then |bytes| else Min(cuts[0], |bytes|);
      assert bytes[..k] + bytes[k..] == bytes;
      UnpackedConcat(bytes[..k], bytes[k..]);
      r.Supply(bytes[..k]);
      assert (p + Unpacked(bytes[..k])) + Unpacked(bytes[k..]) == p + Unpacked(bytes);
      if cuts != [] { cuts := cuts[1..]; }
      bytes := bytes[k..];
    }
  }

  /**
    Any fields, written one after the other and flushed to bytes, are read back in order, into
    whatever portions the bytes are cut on their way.
  */
  method ThroughBytes(fields: seq<Field>, portions: seq<nat>) returns (values: seq<nat>)
    requires Writable(fields)
    ensures |values| == |fields| && forall i :: 0 <= i < |fields| ==> values[i] == fields[i].v
  {
    hide FieldBits, BitsOf, Pow2, Unpacked, ValueOf, BitWriter.Valid, BitWriter.Contents, BitReader.Valid, BitReader.Pending;
    var w := new BitWriter();
    WriteAll(w, fields);
    assert [] + FieldBits(fields) == FieldBits(fields);
    w.Finish();
    ghost var pad :| 0 <= pad < 8 && Unpacked(w.zbits) == FieldBits(fields) + Zeros(pad);
    var r := new BitReader();
    var bytes, cuts := w.zbits, portions;
    values := [];
    assert fields[0..] == fields && [] + Unpacked(bytes) == Unpacked(bytes);
    for i := 0 to |fields|
      invariant r.Valid() && fresh(r) && r.Pending() + Unpacked(bytes) == FieldBits(fields[i..]) + Zeros(pad)
      invariant |values| == i && forall j :: 0 <= j < i ==> values[j] == fields[j].v
    {
      FieldsFrom(fields, i);
      ghost var rest := FieldBits(fields[i + 1..]) + Zeros(pad);
      assert FieldBits(fields[i..]) + Zeros(pad) == BitsOf(fields[i].n, fields[i].v) + rest;
      WriteRead(fields[i].n, fields[i].v, rest);
      var v;
      v, bytes, cuts := ReadField(r, fields[i].n, bytes, cuts);
      values := values + [v];
    }
  }
}
