/**
  dep/bzip2/decompress.c, lines 358-370 and 416-467: the decoder keeps its move-to-front list
  of 256 entries as sixteen chunks of sixteen inside the array `mtfa`, so that moving an entry
  to the front shifts one chunk and one entry of each chunk before it.
*/
module MtfList {
  import opened Mtf

  const MTFA_SIZE := 4096
  const MTFL_SIZE := 16

  /** The chunks are disjoint, in order and inside the array. */
  ghost predicate Chunks(base: seq<int>) {
    && |base| == 16 && 0 <= base[0] && base[15] + MTFL_SIZE <= MTFA_SIZE
    && forall l, m :: 0 <= l <= m < 16 ==> base[l] + MTFL_SIZE * (m - l) <= base[m]
  }

  lemma ChunksRange(base: seq<int>, l: nat)
    requires Chunks(base) && l < 16
    ensures 16 * l <= base[l] && base[l] <= 3840 + 16 * l
  {
    assert base[0] + MTFL_SIZE * l <= base[l] && base[l] + MTFL_SIZE * (15 - l) <= base[15];
  }

  /** Entry k of the list. */
  ghost function At(a: seq<int>, base: seq<int>, k: nat): int
    requires |a| == MTFA_SIZE && Chunks(base) && k < 256
  {
    ChunksRange(base, k / 16);
    a[base[k / 16] + k % 16]
  }

  /** The list the chunks stand for. */
  ghost function View(a: seq<int>, base: seq<int>): (v: seq<int>)
    requires |a| == MTFA_SIZE && Chunks(base)
    ensures |v| == 256 && forall k :: 0 <= k < 256 ==> v[k] == At(a, base, k)
  {
    seq(256, (k: int) requires 0 <= k < 256 => At(a, base, k))
  }

  lemma ViewAt(a: seq<int>, base: seq<int>, l: nat, r: nat)
    requires |a| == MTFA_SIZE && Chunks(base) && l < 16 && r < 16
    ensures 0 <= base[l] + r < MTFA_SIZE && View(a, base)[16 * l + r] == a[base[l] + r]
  {
    ChunksRange(base, l);
    assert (16 * l + r) / 16 == l && (16 * l + r) % 16 == r;
  }

  /** Offset r of chunk l holds the entry of the list v that belongs there. */
  ghost predicate Holds(a: seq<int>, base: seq<int>, v: seq<int>, l: int, r: int)
    requires |a| == MTFA_SIZE && |base| == 16 && |v| == 256 && 0 <= l < 16 && 0 <= r < 16
  {
    0 <= base[l] + r < MTFA_SIZE && a[base[l] + r] == v[16 * l + r]
  }

  lemma ViewIs(a: seq<int>, base: seq<int>, v: seq<int>)
    requires |a| == MTFA_SIZE && Chunks(base) && |v| == 256
    requires forall l, r :: 0 <= l < 16 && 0 <= r < 16 ==> Holds(a, base, v, l, r)
    ensures View(a, base) == v
  {
    forall k | 0 <= k < 256 ensures View(a, base)[k] == v[k] {
      assert Holds(a, base, v, k / 16, k % 16);
      assert 16 * (k / 16) + k % 16 == k;
    }
  }

  // ----- filling the chunks from the top, at the start and when the front reaches position 0 -----

  /** Chunks ii + 1, ... have been moved to the top of the array. */
  ghost predicate Compacting(a0: seq<int>, base0: seq<int>, a: seq<int>, base: seq<int>, kk: int) {
    && |a0| == |a| == MTFA_SIZE && Chunks(base0) && -1 <= kk - 3840 < 256 && |base| == 16
    && (forall x :: 0 <= x <= kk ==> a[x] == a0[x])
    && (forall x :: kk < x < MTFA_SIZE && 3840 <= x ==> a[x] == At(a0, base0, x - 3840))
  }

  lemma CompactStep(a0: seq<int>, base0: seq<int>, a: seq<int>, base: seq<int>, kk: int, ii: nat, jj: nat)
    requires Compacting(a0, base0, a, base, kk) && ii < 16 && jj < 16 && kk == 3840 + 16 * ii + jj
    ensures 0 <= base0[ii] + jj <= kk
    ensures Compacting(a0, base0, a[kk := a[base0[ii] + jj]], base, kk - 1)
  {
    ChunksRange(base0, ii);
    var k := 16 * ii + jj;
    assert k / 16 == ii && k % 16 == jj;
    assert At(a0, base0, k) == a0[base0[ii] + jj];
  }

  /** The rebuild loop: it only ever writes above what it still has to read. */
  method Rebuild(mtfa: array<int>, mtfbase: array<int>)
    requires mtfa != mtfbase && mtfa.Length == MTFA_SIZE && mtfbase.Length == 16 && Chunks(mtfbase[..])
    modifies mtfa, mtfbase
    ensures Chunks(mtfbase[..]) && mtfbase[0] == 3840
    ensures View(mtfa[..], mtfbase[..]) == old(View(mtfa[..], mtfbase[..]))
  {
    hide View, At, Chunks;
    ghost var a0, base0 := mtfa[..], mtfbase[..];
    ghost var v0 := View(a0, base0);
    var kk := MTFA_SIZE - 1;
    var ii := 15;
    while ii >= 0
      invariant -1 <= ii <= 15 && kk == 3840 + 16 * (ii + 1) - 1
      invariant Compacting(a0, base0, mtfa[..], base0, kk)
      invariant forall l :: 0 <= l <= ii ==> mtfbase[l] == base0[l]
      invariant forall l :: ii < l < 16 ==> mtfbase[l] == 3840 + 16 * l
    {
      var jj := 15;
      while jj >= 0
        invariant -1 <= jj <= 15 && kk == 3840 + 16 * ii + jj
        invariant Compacting(a0, base0, mtfa[..], base0, kk)
        invariant forall l :: 0 <= l <= ii ==> mtfbase[l] == base0[l]
        invariant forall l :: ii < l < 16 ==> mtfbase[l] == 3840 + 16 * l
      {
        ghost var a := mtfa[..];
        CompactStep(a0, base0, a, base0, kk, ii, jj);
        mtfa[kk] := mtfa[mtfbase[ii] + jj];
        assert mtfa[..] == a[kk := a[base0[ii] + jj]];
        kk := kk - 1;
        jj := jj - 1;
      }
      mtfbase[ii] := kk + 1;
      ii := ii - 1;
    }
    Compacted(a0, base0, mtfa[..], mtfbase[..]);
  }

  lemma Compacted(a0: seq<int>, base0: seq<int>, a: seq<int>, base: seq<int>)
    requires Compacting(a0, base0, a, base0, 3839) && |base| == 16
    requires forall l :: 0 <= l < 16 ==> base[l] == 3840 + 16 * l
    ensures Chunks(base) && View(a, base) == View(a0, base0)
  {
    var v := View(a0, base0);
    forall l, r | 0 <= l < 16 && 0 <= r < 16 ensures Holds(a, base, v, l, r) {
      assert a[base[l] + r] == At(a0, base0, 16 * l + r);
    }
    ViewIs(a, base, v);
  }

  /** MTF init: the identity list. */
  method Init(mtfa: array<int>, mtfbase: array<int>)
    requires mtfa != mtfbase && mtfa.Length == MTFA_SIZE && mtfbase.Length == 16
    modifies mtfa, mtfbase
    ensures Chunks(mtfbase[..]) && mtfbase[0] > 0 && View(mtfa[..], mtfbase[..]) == Initial(256)
  {
    var kk := MTFA_SIZE - 1;
    var ii := 15;
    while ii >= 0
      invariant -1 <= ii <= 15 && kk == 3840 + 16 * (ii + 1) - 1
      invariant forall x :: kk < x < MTFA_SIZE ==> mtfa[x] == x - 3840
      invariant forall l :: ii < l < 16 ==> mtfbase[l] == 3840 + 16 * l
    {
      var jj := 15;
      while jj >= 0
        invariant -1 <= jj <= 15 && kk == 3840 + 16 * ii + jj
        invariant forall x :: kk < x < MTFA_SIZE ==> mtfa[x] == x - 3840
        invariant forall l :: ii < l < 16 ==> mtfbase[l] == 3840 + 16 * l
      {
        mtfa[kk] := ii * MTFL_SIZE + jj;
        kk := kk - 1;
        jj := jj - 1;
      }
      mtfbase[ii] := kk + 1;
      ii := ii - 1;
    }
    InitView(mtfa[..], mtfbase[..]);
  }

  lemma InitView(a: seq<int>, base: seq<int>)
    requires |a| == MTFA_SIZE && |base| == 16
    requires forall x :: 3840 <= x < MTFA_SIZE ==> a[x] == x - 3840
    requires forall l :: 0 <= l < 16 ==> base[l] == 3840 + 16 * l
    ensures Chunks(base) && View(a, base) == Initial(256)
  {
    var v := Initial(256);
    forall l, r | 0 <= l < 16 && 0 <= r < 16 ensures Holds(a, base, v, l, r) {
      assert a[base[l] + r] == 16 * l + r;
    }
    ViewIs(a, base, v);
  }

  // ----- moving an entry to the front -----

  /** Positions lo + 1, ..., hi hold what was one below; everything else is as it was. */
  ghost predicate ShiftedUp(a0: seq<int>, a: seq<int>, lo: int, hi: int) {
    && |a| == |a0| && 0 <= lo <= hi < |a0|
    && (forall x :: lo < x <= hi ==> a[x] == a0[x - 1])
    && (forall x :: 0 <= x < |a| && !(lo <= x <= hi) ==> a[x] == a0[x])
  }

  /** The common case, an entry of the first chunk: shifted by fours, then singly. */
  method MoveNear(mtfa: array<int>, mtfbase: array<int>, nn0: int) returns (uc: int)
    requires mtfa != mtfbase && mtfa.Length == MTFA_SIZE && mtfbase.Length == 16 && Chunks(mtfbase[..])
    requires 0 <= nn0 < MTFL_SIZE
    modifies mtfa
    ensures uc == old(View(mtfa[..], mtfbase[..]))[nn0]
    ensures View(mtfa[..], mtfbase[..]) == ToFront(old(View(mtfa[..], mtfbase[..])), nn0)
  {
    ghost var a0, base := mtfa[..], mtfbase[..];
    ChunksRange(base, 0);
    hide View, At, Chunks;
    var nn := nn0;
    var pp := mtfbase[0];
    uc := mtfa[pp + nn];
    while nn > 3
      invariant 0 <= nn <= nn0
      invariant forall x :: pp + nn < x <= pp + nn0 ==> mtfa[x] == a0[x - 1]
      invariant forall x :: 0 <= x < MTFA_SIZE && !(pp + nn < x <= pp + nn0) ==> mtfa[x] == a0[x]
    {
      var z := pp + nn;
      mtfa[z] := mtfa[z - 1];
      mtfa[z - 1] := mtfa[z - 2];
      mtfa[z - 2] := mtfa[z - 3];
      mtfa[z - 3] := mtfa[z - 4];
      nn := nn - 4;
    }
    while nn > 0
      invariant 0 <= nn <= nn0
      invariant forall x :: pp + nn < x <= pp + nn0 ==> mtfa[x] == a0[x - 1]
      invariant forall x :: 0 <= x < MTFA_SIZE && !(pp + nn < x <= pp + nn0) ==> mtfa[x] == a0[x]
    {
      mtfa[pp + nn] := mtfa[pp + nn - 1];
      nn := nn - 1;
    }
    mtfa[pp] := uc;
    NearView(a0, mtfa[..], base, nn0);
  }

  lemma ToFrontAt(v: seq<int>, nn: nat, k: nat)
    requires nn < |v| && k < |v|
    ensures ToFront(v, nn)[k] == v[if k == 0 then nn else if k <= nn then k - 1 else k]
  {
  }

  lemma NearView(a0: seq<int>, a: seq<int>, base: seq<int>, nn: int)
    requires |a0| == MTFA_SIZE && Chunks(base) && 0 <= nn < 16 && base[0] + nn < MTFA_SIZE
    requires ShiftedUp(a0, a, base[0], base[0] + nn) && a[base[0]] == a0[base[0] + nn]
    ensures View(a0, base)[nn] == a0[base[0] + nn]
    ensures View(a, base) == ToFront(View(a0, base), nn)
  {
    var v := View(a0, base);
    ViewAt(a0, base, 0, nn);
    var w := ToFront(v, nn);
    forall l, r | 0 <= l < 16 && 0 <= r < 16 ensures Holds(a, base, w, l, r) {
      ViewAt(a0, base, l, r);
      ToFrontAt(v, nn, 16 * l + r);
      if l == 0 && 0 < r <= nn { ViewAt(a0, base, 0, r - 1); }
      assert base[0] + MTFL_SIZE * l <= base[l];
    }
    ViewIs(a, base, w);
  }

  /** Where the last entry of chunk l - 1 is put: at the front of chunk l. */
  ghost function Front(base0: seq<int>, lno: int, l: int): (w: int)
    requires Chunks(base0) && 0 < l <= lno < 16
    ensures base0[l - 1] + 15 <= w <= base0[l] && 0 <= w < MTFA_SIZE
  {
    assert base0[l - 1] + MTFL_SIZE <= base0[l] && 0 <= base0[l] < MTFA_SIZE by {
      ChunksRange(base0, l);
      assert base0[l - 1] + MTFL_SIZE * (l - (l - 1)) <= base0[l];
    }
    if l == lno then base0[l] else base0[l] - 1
  }

  /**
    The array after the cascade from chunk `lno`, where the entry came from, down to chunk
    `cur`: each chunk has received the last entry of the one before it.
  */
  ghost function Cascaded(a1: seq<int>, base0: seq<int>, lno: int, cur: int): (a: seq<int>)
    requires |a1| == MTFA_SIZE && Chunks(base0) && 0 <= cur <= lno < 16
    ensures |a| == MTFA_SIZE
    decreases lno - cur
  {
    if cur == lno then a1
    else
      ChunksRange(base0, cur);
      Cascaded(a1, base0, lno, cur + 1)[Front(base0, lno, cur + 1) := a1[base0[cur] + 15]]
  }

  lemma FrontsDistinct(base0: seq<int>, lno: int, l: int, m: int)
    requires Chunks(base0) && 0 < l < m <= lno < 16
    ensures Front(base0, lno, l) < base0[l] + 15 <= Front(base0, lno, m)
  {
    assert base0[l] + MTFL_SIZE * (m - 1 - l) <= base0[m - 1];
  }

  lemma {:induction false} CascadedFront(a1: seq<int>, base0: seq<int>, lno: int, cur: int, l: int)
    requires |a1| == MTFA_SIZE && Chunks(base0) && 0 <= cur < l <= lno < 16
    ensures 0 <= base0[l - 1] + 15 < MTFA_SIZE
    ensures Cascaded(a1, base0, lno, cur)[Front(base0, lno, l)] == a1[base0[l - 1] + 15]
    decreases lno - cur
  {
    ChunksRange(base0, l - 1);
    if cur + 1 < l {
      CascadedFront(a1, base0, lno, cur + 1, l);
      FrontsDistinct(base0, lno, cur + 1, l);
    }
  }

  lemma {:induction false} CascadedElse(a1: seq<int>, base0: seq<int>, lno: int, cur: int, x: int)
    requires |a1| == MTFA_SIZE && Chunks(base0) && 0 <= cur <= lno < 16 && 0 <= x < MTFA_SIZE
    requires forall l :: cur < l <= lno ==> x != Front(base0, lno, l)
    ensures Cascaded(a1, base0, lno, cur)[x] == a1[x]
    decreases lno - cur
  {
    if cur < lno { CascadedElse(a1, base0, lno, cur + 1, x); }
  }

  /** The entry the cascade reads for chunk cur has not been overwritten. */
  lemma CascadeReads(a1: seq<int>, base0: seq<int>, lno: int, cur: int)
    requires |a1| == MTFA_SIZE && Chunks(base0) && 0 < cur <= lno < 16
    ensures 0 <= base0[cur - 1] + 15 < MTFA_SIZE
    ensures Cascaded(a1, base0, lno, cur)[base0[cur - 1] + 15] == a1[base0[cur - 1] + 15]
    ensures Cascaded(a1, base0, lno, cur - 1) ==
            Cascaded(a1, base0, lno, cur)[Front(base0, lno, cur) := a1[base0[cur - 1] + 15]]
  {
    ChunksRange(base0, cur - 1);
    var x := base0[cur - 1] + 15;
    forall l | cur < l <= lno ensures x != Front(base0, lno, l) {
      assert base0[cur - 1] + MTFL_SIZE * (l - 1 - (cur - 1)) <= base0[l - 1];
    }
    CascadedElse(a1, base0, lno, cur, x);
  }

  lemma FrontIs(base0: seq<int>, lno: int, l: int)
    requires Chunks(base0) && 0 < l <= lno < 16
    ensures Front(base0, lno, l) == if l == lno then base0[l] else base0[l] - 1
  {
  }

  /** The general case: the entry comes from chunk nn / 16, which is not the first. */
  method MoveFar(mtfa: array<int>, mtfbase: array<int>, nn: int) returns (uc: int)
    requires mtfa != mtfbase && mtfa.Length == MTFA_SIZE && mtfbase.Length == 16 && Chunks(mtfbase[..])
    requires mtfbase[0] > 0 && MTFL_SIZE <= nn < 256
    modifies mtfa, mtfbase
    ensures uc == old(View(mtfa[..], mtfbase[..]))[nn]
    ensures Chunks(mtfbase[..]) && mtfbase[0] == old(mtfbase[0]) - 1
    ensures View(mtfa[..], mtfbase[..]) == ToFront(old(View(mtfa[..], mtfbase[..])), nn)
  {
    hide View, At, Chunks, Cascaded, Front, ShiftedUp;
    ghost var a0, base0 := mtfa[..], mtfbase[..];
    var lno := nn / MTFL_SIZE;
    var off := nn % MTFL_SIZE;
    ViewAt(a0, base0, lno, off);
    ChunksRange(base0, lno);
    ChunksRange(base0, 0);
    uc := ShiftChunk(mtfa, mtfbase[lno], off);
    ghost var a1 := mtfa[..];
    mtfbase[lno] := mtfbase[lno] + 1;
    Cascade(mtfa, mtfbase, base0, lno);
    ghost var a2 := mtfa[..];
    mtfbase[0] := mtfbase[0] - 1;
    mtfa[mtfbase[0]] := uc;
    assert mtfa[..] == a2[base0[0] - 1 := uc];
    FarView(a0, a1, base0, mtfa[..], mtfbase[..], lno, off, uc);
  }

  /** Entries 0, ..., off - 1 of a chunk move up by one, over entry `off`, which is returned. */
  method ShiftChunk(mtfa: array<int>, start: int, off: int) returns (uc: int)
    requires mtfa.Length == MTFA_SIZE && 0 <= start && 0 <= off && start + off < MTFA_SIZE
    modifies mtfa
    ensures uc == old(mtfa[start + off])
    ensures ShiftedUp(old(mtfa[..]), mtfa[..], start, start + off)
  {
    hide ShiftedUp;
    ghost var a0 := mtfa[..];
    var pp := start + off;
    uc := mtfa[pp];
    ShiftedStart(a0, start, pp);
    while pp > start
      invariant start <= pp <= start + off
      invariant ShiftedUp(a0, mtfa[..], pp, start + off)
    {
      ghost var a := mtfa[..];
      ShiftedStep(a0, a, pp, start + off);
      mtfa[pp] := mtfa[pp - 1];
      assert mtfa[..] == a[pp := a[pp - 1]];
      pp := pp - 1;
    }
  }

  /** The loop that hands the last entry of each chunk on to the next one. */
  method Cascade(mtfa: array<int>, mtfbase: array<int>, ghost base0: seq<int>, lno: int)
    requires mtfa != mtfbase && mtfa.Length == MTFA_SIZE && mtfbase.Length == |base0| == 16 && Chunks(base0) && 0 < lno < 16
    requires forall l :: 0 <= l < 16 ==> mtfbase[l] == base0[l] + if l == lno then 1 else 0
    modifies mtfa, mtfbase
    ensures mtfa[..] == Cascaded(old(mtfa[..]), base0, lno, 0)
    ensures forall l :: 0 <= l < 16 ==> mtfbase[l] == base0[l] - if 0 < l < lno then 1 else 0
  {
    hide Chunks, Cascaded, Front;
    ghost var a1 := mtfa[..];
    CascadeStart(a1, base0, lno);
    var cur := lno;
    while cur > 0
      invariant 0 <= cur <= lno && mtfa[..] == Cascaded(a1, base0, lno, cur)
      invariant forall l :: 0 <= l < 16 ==>
                  mtfbase[l] == base0[l] + if l == lno == cur then 1 else if cur < l < lno then -1 else 0
    {
      ghost var a := mtfa[..];
      CascadeReads(a1, base0, lno, cur);
      FrontIs(base0, lno, cur);
      mtfbase[cur] := mtfbase[cur] - 1;
      mtfa[mtfbase[cur]] := mtfa[mtfbase[cur - 1] + MTFL_SIZE - 1];
      assert mtfa[..] == a[Front(base0, lno, cur) := a1[base0[cur - 1] + 15]];
      cur := cur - 1;
    }
  }

  lemma ShiftedStart(a0: seq<int>, lo: int, hi: int)
    requires 0 <= lo <= hi < |a0|
    ensures ShiftedUp(a0, a0, hi, hi)
  {
  }

  lemma ShiftedStep(a0: seq<int>, a: seq<int>, pp: int, hi: int)
    requires ShiftedUp(a0, a, pp, hi) && 0 < pp
    ensures ShiftedUp(a0, a[pp := a[pp - 1]], pp - 1, hi)
  {
  }

  lemma CascadeStart(a1: seq<int>, base0: seq<int>, lno: int)
    requires |a1| == MTFA_SIZE && Chunks(base0) && 0 <= lno < 16
    ensures a1 == Cascaded(a1, base0, lno, lno)
  {
  }

  /** The chunk bases after the cascade. */
  ghost predicate Lowered(base0: seq<int>, base: seq<int>, lno: int) {
    && |base0| == |base| == 16
    && forall l :: 0 <= l < 16 ==> base[l] == base0[l] - if l < lno then 1 else 0
  }

  /** A front entry is the last of the chunk before. */
  lemma FarFirst(a0: seq<int>, a1: seq<int>, base0: seq<int>, lno: int, off: int, l: int)
    requires |a0| == MTFA_SIZE && Chunks(base0) && 0 < l <= lno < 16 && 0 <= off < 16
    requires base0[lno] + off < MTFA_SIZE && ShiftedUp(a0, a1, base0[lno], base0[lno] + off)
    ensures 0 <= base0[l - 1] + 15 < MTFA_SIZE
    ensures Cascaded(a1, base0, lno, 0)[Front(base0, lno, l)] == a0[base0[l - 1] + 15]
  {
    CascadedFront(a1, base0, lno, 0, l);
    ChunksRange(base0, l - 1);
    assert base0[l - 1] + MTFL_SIZE * (lno - (l - 1)) <= base0[lno];
  }

  /** Positions that are not a front keep what the shift of chunk lno left there. */
  lemma FarOther(a1: seq<int>, base0: seq<int>, lno: int, l: int, x: int)
    requires |a1| == MTFA_SIZE && Chunks(base0) && 0 <= l < 16 && 0 < lno < 16
    requires 0 <= x < MTFA_SIZE
    requires if l < lno then base0[l] <= x < base0[l] + 15 else if l == lno then base0[l] < x < base0[l] + 16
             else base0[l] <= x < base0[l] + 16
    ensures Cascaded(a1, base0, lno, 0)[x] == a1[x]
  {
    forall m | 0 < m <= lno ensures x != Front(base0, lno, m) {
      FrontIs(base0, lno, m);
      if l < m { assert base0[l] + MTFL_SIZE * (m - l) <= base0[m]; }
      if m < l { assert base0[m] + MTFL_SIZE * (l - m) <= base0[l]; }
    }
    CascadedElse(a1, base0, lno, 0, x);
  }

  lemma FarEntry(a0: seq<int>, a1: seq<int>, base0: seq<int>, a: seq<int>, base: seq<int>,
                 lno: int, off: int, uc: int, l: int, r: int)
    requires |a0| == MTFA_SIZE && Chunks(base0) && base0[0] > 0 && 0 < lno < 16 && 0 <= off < 16
    requires base0[lno] + off < MTFA_SIZE && ShiftedUp(a0, a1, base0[lno], base0[lno] + off)
    requires base0[0] - 1 < MTFA_SIZE && a == Cascaded(a1, base0, lno, 0)[base0[0] - 1 := uc] && Lowered(base0, base, lno)
    requires uc == View(a0, base0)[16 * lno + off]
    requires 0 <= l < 16 && 0 <= r < 16
    ensures Holds(a, base, ToFront(View(a0, base0), 16 * lno + off), l, r)
  {
    hide View, Cascaded, At;
    var v, nn, k := View(a0, base0), 16 * lno + off, 16 * l + r;
    ChunksRange(base0, l);
    ToFrontAt(v, nn, k);
    var x := base[l] + r;
    assert base0[0] + MTFL_SIZE * l <= base0[l];
    if l == 0 && r == 0 {
    } else if l < lno && r > 0 {
      FarOther(a1, base0, lno, l, x);
      ViewAt(a0, base0, l, r - 1);
      assert base0[l] + MTFL_SIZE * (lno - l) <= base0[lno];
    } else if l <= lno && r == 0 {
      FarFirst(a0, a1, base0, lno, off, l);
      FrontIs(base0, lno, l);
      ViewAt(a0, base0, l - 1, 15);
    } else {
      FarOther(a1, base0, lno, l, x);
      ViewAt(a0, base0, l, r);
      if l == lno { ViewAt(a0, base0, l, r - 1); } else { assert base0[lno] + MTFL_SIZE * (l - lno) <= base0[l]; }
    }
  }

  lemma FarView(a0: seq<int>, a1: seq<int>, base0: seq<int>, a: seq<int>, base: seq<int>, lno: int, off: int, uc: int)
    requires |a0| == MTFA_SIZE && Chunks(base0) && base0[0] > 0 && 0 < lno < 16 && 0 <= off < 16
    requires base0[lno] + off < MTFA_SIZE && ShiftedUp(a0, a1, base0[lno], base0[lno] + off)
    requires base0[0] - 1 < MTFA_SIZE && a == Cascaded(a1, base0, lno, 0)[base0[0] - 1 := uc] && |base| == 16
    requires forall l :: 0 <= l < 16 ==> base[l] == base0[l] - if l < lno then 1 else 0
    requires uc == View(a0, base0)[16 * lno + off]
    ensures Chunks(base) && View(a, base) == ToFront(View(a0, base0), 16 * lno + off)
  {
    hide View, Cascaded, At, ShiftedUp;
    var w := ToFront(View(a0, base0), 16 * lno + off);
    assert Lowered(base0, base, lno);
    forall l, m | 0 <= l <= m < 16 ensures base[l] + MTFL_SIZE * (m - l) <= base[m] {
      assert base0[l] + MTFL_SIZE * (m - l) <= base0[m];
    }
    forall l, r | 0 <= l < 16 && 0 <= r < 16 ensures Holds(a, base, w, l, r) {
      FarEntry(a0, a1, base0, a, base, lno, off, uc, l, r);
    }
    ViewIs(a, base, w);
  }

  /** uc = MTF(nextSym - 1), for any rank: the chunked list does what the plain list does. */
  method MoveToFront(mtfa: array<int>, mtfbase: array<int>, nn: int) returns (uc: int)
    requires mtfa != mtfbase && mtfa.Length == MTFA_SIZE && mtfbase.Length == 16
    requires Chunks(mtfbase[..]) && mtfbase[0] > 0 && 0 <= nn < 256
    modifies mtfa, mtfbase
    ensures Chunks(mtfbase[..]) && mtfbase[0] > 0
    ensures uc == old(View(mtfa[..], mtfbase[..]))[nn]
    ensures View(mtfa[..], mtfbase[..]) == ToFront(old(View(mtfa[..], mtfbase[..])), nn)
  {
    hide View, At, Chunks;
    if nn < MTFL_SIZE {
      uc := MoveNear(mtfa, mtfbase, nn);
    } else {
      uc := MoveFar(mtfa, mtfbase, nn);
      if mtfbase[0] == 0 {
        Rebuild(mtfa, mtfbase);
      }
    }
  }
}
