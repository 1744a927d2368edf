/**
  dep/bzip2/compress.c, sendMTFValues (lines 238-598): the choice of coding tables and selectors,
  the assignment of codes, and the transmission of everything that follows the block header.
*/
module SendMtfValues {
  import opened Common
  import opened BitIO
  import HT = HuffmanTree
  import HL = HuffmanLengths
  import CC = CanonicalCode
  import opened Mtf
  import opened Decompress
  import DT = DecodeTables
  import opened BlockFormat
  import opened BlockRoundTrip

  const ICOST := 20

  /** The rows of len, rfreq or code: an array for each coding table. */
  ghost predicate Rows(rows: seq<array<int>>) {
    && (forall t :: 0 <= t < |rows| ==> rows[t].Length == 258)
    && (forall t, u :: 0 <= t < u < |rows| ==> rows[t] != rows[u])
  }

  // ----- choosing a table for a group -----

  /** How many bits the symbols take with the given lengths. */
  function CostOf(len: seq<int>, syms: seq<int>): int {
    if syms == [] then 0
    else CostOf(len, syms[..|syms| - 1]) + if 0 <= syms[|syms| - 1] < |len| then len[syms[|syms| - 1]] else 0
  }

  lemma {:induction false} CostBound(len: seq<int>, syms: seq<int>)
    requires forall v :: 0 <= v < |len| ==> 0 <= len[v] <= ICOST
    ensures 0 <= CostOf(len, syms) <= ICOST * |syms|
  {
    if syms != [] { CostBound(len, syms[..|syms| - 1]); }
  }

  /** Only the lengths of the alphabet matter. */
  lemma {:induction false} CostPrefix(len: seq<int>, alphaSize: nat, syms: seq<int>)
    requires alphaSize <= |len| && forall i :: 0 <= i < |syms| ==> 0 <= syms[i] < alphaSize
    ensures CostOf(len[..alphaSize], syms) == CostOf(len, syms)
  {
    if syms != [] { CostPrefix(len, alphaSize, syms[..|syms| - 1]); }
  }

  ghost predicate Costed(len: seq<array<int>>)
    reads len
  {
    Rows(len) && forall t :: 0 <= t < |len| ==> forall v :: 0 <= v < 258 ==> 0 <= len[t][v] <= ICOST
  }

  lemma CostNext(len: seq<int>, syms: seq<int>, i: nat)
    requires |len| == 258 && forall v :: 0 <= v < 258 ==> 0 <= len[v] <= ICOST
    requires SymbolsFit(syms, 257) && i < |syms|
    ensures SymbolsFit(syms[..i], 257) && SymbolsFit(syms[..i + 1], 257)
    ensures CostOf(len, syms[..i + 1]) == CostOf(len, syms[..i]) + len[syms[i]]
  {
    assert syms[..i + 1][..i] == syms[..i];
  }

  /** A cost is a 16-bit word, which a group of fifty cannot overflow. */
  method AddCosts(cost: array<int>, len: seq<array<int>>, icv: int)
    requires |len| <= 6 == cost.Length && Costed(len) && cost !in len && 0 <= icv < 258
    requires forall t :: 0 <= t < |len| ==> 0 <= cost[t] <= ICOST * G_SIZE
    modifies cost
    ensures forall t :: 0 <= t < |len| ==> cost[t] == old(cost[t]) + len[t][icv]
  {
    for t := 0 to |len|
      invariant forall u :: 0 <= u < t ==> cost[u] == old(cost[u]) + len[u][icv]
      invariant forall u :: t <= u < |len| ==> cost[u] == old(cost[u])
    {
      cost[t] := (cost[t] + len[t][icv]) % 65536;
    }
  }

  /** What each table costs for the first k symbols of a group. */
  ghost predicate CostsSoFar(cost: seq<int>, lens: seq<seq<int>>, syms: seq<int>, k: int) {
    && 0 <= k <= |syms| <= G_SIZE && SymbolsFit(syms, 257) && SymbolsFit(syms[..k], 257) && |lens| <= |cost|
    && (forall t :: 0 <= t < |lens| ==> |lens[t]| == 258 && forall v :: 0 <= v < 258 ==> 0 <= lens[t][v] <= ICOST)
    && forall t :: 0 <= t < |lens| ==> cost[t] == CostOf(lens[t], syms[..k])
  }

  lemma CostsNext(cost: seq<int>, cost': seq<int>, lens: seq<seq<int>>, syms: seq<int>, k: int)
    requires CostsSoFar(cost, lens, syms, k) && k < |syms| && |cost'| == |cost|
    requires forall t :: 0 <= t < |lens| ==> cost'[t] == cost[t] + lens[t][syms[k]]
    ensures CostsSoFar(cost', lens, syms, k + 1)
  {
    hide CostOf;
    assert forall i :: 0 <= i < k + 1 ==> syms[..k + 1][i] == syms[i];
    forall t | 0 <= t < |lens| ensures cost'[t] == CostOf(lens[t], syms[..k + 1]) {
      CostNext(lens[t], syms, k);
    }
  }

  lemma CostsStart(cost: seq<int>, lens: seq<seq<int>>, syms: seq<int>)
    requires |syms| <= G_SIZE && SymbolsFit(syms, 257) && |lens| <= |cost|
    requires forall t :: 0 <= t < |lens| ==> |lens[t]| == 258 && forall v :: 0 <= v < 258 ==> 0 <= lens[t][v] <= ICOST
    requires forall t :: 0 <= t < |lens| ==> cost[t] == 0
    ensures CostsSoFar(cost, lens, syms, 0)
  {
    assert syms[..0] == [];
  }

  /** The running costs are small, and the symbol to come is in the alphabet. */
  lemma CostsFacts(cost: seq<int>, lens: seq<seq<int>>, syms: seq<int>, k: int)
    requires CostsSoFar(cost, lens, syms, k)
    ensures forall t :: 0 <= t < |lens| ==> 0 <= cost[t] <= ICOST * G_SIZE
    ensures k < |syms| ==> 0 <= syms[k] < 258
  {
    hide CostOf;
    forall t | 0 <= t < |lens| ensures 0 <= cost[t] <= ICOST * G_SIZE { CostBound(lens[t], syms[..k]); }
  }

  lemma CostsEnd(cost: seq<int>, lens: seq<seq<int>>, syms: seq<int>)
    requires CostsSoFar(cost, lens, syms, |syms|)
    ensures forall t :: 0 <= t < |lens| ==> cost[t] == CostOf(lens[t], syms)
  {
    assert syms[..|syms|] == syms;
  }

  ghost function Values(rows: seq<array<int>>): (v: seq<seq<int>>)
    reads rows
    ensures |v| == |rows| && forall t :: 0 <= t < |rows| ==> v[t] == rows[t][..]
  {
    seq(|rows|, (t: int) requires 0 <= t < |rows| reads rows => rows[t][..])
  }

  /** The cost of a group with each table. */
  method GroupCosts(mtfv: array<int>, gs: int, ge: int, len: seq<array<int>>) returns (cost: array<int>)
    requires |len| <= 6 && Costed(len) && 0 <= gs <= ge < mtfv.Length && ge < gs + G_SIZE
    requires SymbolsFit(mtfv[gs..ge + 1], 257)
    ensures fresh(cost) && cost.Length == 6
    ensures forall t :: 0 <= t < |len| ==> 0 <= cost[t] <= ICOST * G_SIZE
    ensures forall t :: 0 <= t < |len| ==> cost[t] == CostOf(len[t][..], mtfv[gs..ge + 1])
  {
    hide CostOf, CostsSoFar;
    ghost var syms, lens := mtfv[gs..ge + 1], Values(len);
    cost := new int[6](_ => 0);
    CostsStart(cost[..], lens, syms);
    for i := gs to ge + 1
      invariant CostsSoFar(cost[..], lens, syms, i - gs)
    {
      CostsFacts(cost[..], lens, syms, i - gs);
      ghost var before := cost[..];
      AddCosts(cost, len, mtfv[i]);
      CostsNext(before, cost[..], lens, syms, i - gs);
    }
    CostsFacts(cost[..], lens, syms, |syms|);
    CostsEnd(cost[..], lens, syms);
  }

  // ----- six tables at once -----

  /** Two lengths to a word. */
  ghost predicate Packed(pack: seq<int>, low: seq<int>, high: seq<int>) {
    |pack| == |low| == |high| == 258 && forall v :: 0 <= v < 258 ==> pack[v] == low[v] + 65536 * high[v]
  }

  method PackTwo(low: array<int>, high: array<int>) returns (pack: array<int>)
    requires low.Length == high.Length == 258 && forall v :: 0 <= v < 258 ==> 0 <= low[v] <= ICOST && 0 <= high[v] <= ICOST
    ensures fresh(pack) && Packed(pack[..], low[..], high[..])
  {
    pack := new int[258];
    SixteenBits();
    for v := 0 to 258
      invariant forall u :: 0 <= u < v ==> pack[u] == low[u] + 65536 * high[u]
    {
      DisjointOr(low[v], high[v], 16);
      pack[v] := BitOr(65536 * high[v], low[v]);
    }
  }

  lemma SixteenBits()
    ensures Pow2(16) == 65536
  {
    Pow2Add(8, 8);
  }

  /** Both halves of a word grow, and neither overflows in fifty steps. */
  lemma PackedNext(pack: seq<int>, low: seq<int>, high: seq<int>, syms: seq<int>, k: nat, cost: int)
    requires Packed(pack, low, high) && k < |syms| <= G_SIZE && 0 <= syms[k] < 258
    requires forall v :: 0 <= v < 258 ==> 0 <= low[v] <= ICOST && 0 <= high[v] <= ICOST
    requires cost == CostOf(low, syms[..k]) + 65536 * CostOf(high, syms[..k])
    ensures var c := (cost + pack[syms[k]]) % 0x1_0000_0000; c == CostOf(low, syms[..k + 1]) + 65536 * CostOf(high, syms[..k + 1])
  {
    hide CostOf;
    assert syms[..k + 1][..k] == syms[..k];
    CostLast(low, syms, k);
    CostLast(high, syms, k);
    CostBound(low, syms[..k + 1]);
    CostBound(high, syms[..k + 1]);
  }

  lemma CostLast(len: seq<int>, syms: seq<int>, k: nat)
    requires k < |syms| && 0 <= syms[k] < |len|
    ensures CostOf(len, syms[..k + 1]) == CostOf(len, syms[..k]) + len[syms[k]]
  {
    assert syms[..k + 1][..k] == syms[..k];
  }

  lemma Halves(low: seq<int>, high: seq<int>, syms: seq<int>, cost: int)
    requires |syms| <= G_SIZE && cost == CostOf(low, syms) + 65536 * CostOf(high, syms)
    requires (forall v :: 0 <= v < |low| ==> 0 <= low[v] <= ICOST) && forall v :: 0 <= v < |high| ==> 0 <= high[v] <= ICOST
    ensures cost % 65536 == CostOf(low, syms) && cost / 65536 == CostOf(high, syms)
  {
    hide CostOf;
    CostBound(low, syms);
    CostBound(high, syms);
  }

  /** One of the three words, over the fifty symbols of a group. */
  method PackedCost(mtfv: array<int>, gs: int, pack: array<int>, ghost low: seq<int>, ghost high: seq<int>) returns (cost: int)
    requires 0 <= gs && gs + G_SIZE <= mtfv.Length && Packed(pack[..], low, high) && SymbolsFit(mtfv[gs..gs + G_SIZE], 257)
    requires forall v :: 0 <= v < 258 ==> 0 <= low[v] <= ICOST && 0 <= high[v] <= ICOST
    ensures cost % 65536 == CostOf(low, mtfv[gs..gs + G_SIZE]) && cost / 65536 == CostOf(high, mtfv[gs..gs + G_SIZE])
  {
    hide CostOf;
    ghost var syms := mtfv[gs..gs + G_SIZE];
    cost := 0;
    NothingCosts(low);
    NothingCosts(high);
    assert syms[..0] == [];
    for nn: int := 0 to G_SIZE
      invariant cost == CostOf(low, syms[..nn]) + 65536 * CostOf(high, syms[..nn])
    {
      assert syms[nn] == mtfv[gs + nn] && pack[..][syms[nn]] == pack[syms[nn]];
      PackedNext(pack[..], low, high, syms, nn, cost);
      cost := (cost + pack[mtfv[gs + nn]]) % 0x1_0000_0000;
    }
    assert syms[..G_SIZE] == syms;
    Halves(low, high, syms, cost);
  }

  lemma NothingCosts(len: seq<int>)
    ensures CostOf(len, []) == 0
  {
  }

  /** The words of the six tables. */
  ghost predicate PackedAll(pack: seq<array<int>>, len: seq<array<int>>)
    reads pack, len
  {
    |len| == 6 && |pack| == 3 && forall i :: 0 <= i < 3 ==> Packed(pack[i][..], len[2 * i][..], len[2 * i + 1][..])
  }

  /** The auxiliary length table for the common case of six tables. */
  method PackLengths(len: seq<array<int>>) returns (pack: seq<array<int>>)
    requires |len| == 6 && Costed(len)
    ensures PackedAll(pack, len) && forall i :: 0 <= i < |pack| ==> fresh(pack[i])
  {
    hide Packed;
    var p0 := PackTwo(len[0], len[1]);
    var p1 := PackTwo(len[2], len[3]);
    var p2 := PackTwo(len[4], len[5]);
    pack := [p0, p1, p2];
  }

  /** The costs of a full group with six tables, two at a time. */
  method FastCosts(mtfv: array<int>, gs: int, pack: seq<array<int>>, ghost len: seq<array<int>>) returns (cost: array<int>)
    requires PackedAll(pack, len) && Costed(len)
    requires 0 <= gs && gs + G_SIZE <= mtfv.Length && SymbolsFit(mtfv[gs..gs + G_SIZE], 257)
    ensures fresh(cost) && cost.Length == 6
    ensures forall t :: 0 <= t < 6 ==> cost[t] == CostOf(len[t][..], mtfv[gs..gs + G_SIZE]) && 0 <= cost[t] < 65536
  {
    hide CostOf, Packed;
    var cost01 := PackedCost(mtfv, gs, pack[0], len[0][..], len[1][..]);
    var cost23 := PackedCost(mtfv, gs, pack[1], len[2][..], len[3][..]);
    var cost45 := PackedCost(mtfv, gs, pack[2], len[4][..], len[5][..]);
    forall t | 0 <= t < 6 ensures 0 <= CostOf(len[t][..], mtfv[gs..gs + G_SIZE]) < 65536 {
      CostBound(len[t][..], mtfv[gs..gs + G_SIZE]);
    }
    cost := new int[6];
    cost[0], cost[1] := cost01 % 65536, cost01 / 65536;
    cost[2], cost[3] := cost23 % 65536, cost23 / 65536;
    cost[4], cost[5] := cost45 % 65536, cost45 / 65536;
  }

  // ----- the choice -----

  /** The first of the tables with which the symbols take fewest bits. */
  ghost predicate Cheapest(lens: seq<seq<int>>, syms: seq<int>, bt: int) {
    && 0 <= bt < |lens|
    && (forall t :: 0 <= t < |lens| ==> CostOf(lens[bt], syms) <= CostOf(lens[t], syms))
    && (forall t :: 0 <= t < bt ==> CostOf(lens[bt], syms) < CostOf(lens[t], syms))
  }

  /** The g-th group of fifty symbols. */
  function Group(syms: seq<int>, g: nat): seq<int> {
    if G_SIZE * g + G_SIZE <= |syms| then syms[G_SIZE * g..G_SIZE * g + G_SIZE]
    else if G_SIZE * g <= |syms| then syms[G_SIZE * g..]
    else []
  }

  /** Every group has its cheapest table. */
  ghost predicate Chosen(sel: seq<int>, lens: seq<seq<int>>, syms: seq<int>) {
    forall g :: 0 <= g < |sel| ==> Cheapest(lens, Group(syms, g), sel[g])
  }

  lemma ChosenNext(sel: seq<int>, lens: seq<seq<int>>, syms: seq<int>, bt: int)
    requires Chosen(sel, lens, syms) && Cheapest(lens, Group(syms, |sel|), bt)
    ensures Chosen(sel + [bt], lens, syms)
  {
    hide Cheapest, Group;
  }

  lemma GroupIs(syms: seq<int>, g: nat, gs: int, ge: int)
    requires gs == G_SIZE * g < |syms| && ge == GroupEnd(gs, |syms|)
    ensures gs <= ge < |syms| && Group(syms, g) == syms[gs..ge + 1]
  {
  }

  lemma CheapestIs(lens: seq<seq<int>>, syms: seq<int>, cost: seq<int>, bt: int)
    requires 0 <= bt < |lens| <= |cost| && forall t :: 0 <= t < |lens| ==> cost[t] == CostOf(lens[t], syms)
    requires forall t :: 0 <= t < |lens| ==> cost[bt] <= cost[t] && (t < bt ==> cost[bt] < cost[t])
    ensures Cheapest(lens, syms, bt)
  {
    hide CostOf;
  }

  /** The costs of the next group, with six tables and fifty symbols by the fast track. */
  method NextCosts(mtfv: array<int>, gs: int, ge: int, nMTF: int, len: seq<array<int>>, pack: seq<array<int>>) returns (cost: array<int>)
    requires 1 <= |len| <= 6 && Costed(len) && (|len| == 6 ==> PackedAll(pack, len))
    requires 0 <= gs <= ge < nMTF <= mtfv.Length && ge < gs + G_SIZE && forall i :: 0 <= i < nMTF ==> 0 <= mtfv[i] <= 257
    ensures fresh(cost) && cost.Length == 6
    ensures forall t :: 0 <= t < |len| ==> cost[t] == CostOf(len[t][..], mtfv[gs..ge + 1]) && 0 <= cost[t] < 65536
  {
    hide CostOf, PackedAll;
    if |len| == 6 && 50 == ge - gs + 1 {
      cost := FastCosts(mtfv, gs, pack, len);
    } else {
      cost := GroupCosts(mtfv, gs, ge, len);
    }
  }

  /** The table recorded for a group is the first of the cheapest ones. */
  method BestTable(cost: array<int>, nGroups: int) returns (bt: int)
    requires 1 <= nGroups <= cost.Length && forall t :: 0 <= t < nGroups ==> cost[t] < 65536
    ensures 0 <= bt < nGroups && forall t :: 0 <= t < nGroups ==> cost[bt] <= cost[t] && (t < bt ==> cost[bt] < cost[t])
  {
    var bc := 999999999;
    bt := -1;
    for t := 0 to nGroups
      invariant t == 0 ==> bt == -1 && bc == 999999999
      invariant t > 0 ==> 0 <= bt < t && bc == cost[bt]
      invariant forall u :: 0 <= u < t ==> bc <= cost[u] && (u < bt ==> bc < cost[u])
    {
      if cost[t] < bc {
        bc := cost[t];
        bt := t;
      }
    }
  }

  // ----- frequencies -----

  ghost predicate Frequencies(f: seq<int>, total: int) {
    |f| == 258 && (forall v :: 0 <= v < 258 ==> f[v] >= 0) && Sum(f) <= total
  }

  lemma {:induction false} SumUpdate(s: seq<int>, i: int, v: int)
    requires 0 <= i < |s|
    ensures Sum(s[i := v]) == Sum(s) - s[i] + v
  {
    var k := |s| - 1;
    if i < k {
      assert s[i := v][..k] == s[..k][i := v];
      SumUpdate(s[..k], i, v);
    } else {
      assert s[i := v][..k] == s[..k];
    }
  }

  lemma {:induction false} SumZeros(s: seq<int>)
    requires forall i :: 0 <= i < |s| ==> s[i] == 0
    ensures Sum(s) == 0
  {
    if s != [] { SumZeros(s[..|s| - 1]); }
  }

  lemma {:induction false} TotalBound(f: seq<int>, k: nat)
    requires k <= |f| && forall i :: 0 <= i < |f| ==> f[i] >= 0
    ensures HL.Total(f, k) <= Sum(f[..k]) + k
  {
    if k > 0 {
      assert f[..k][..k - 1] == f[..k - 1];
      TotalBound(f, k - 1);
    }
  }

  lemma {:induction false} SumPrefix(f: seq<int>, k: nat)
    requires k <= |f| && forall i :: 0 <= i < |f| ==> f[i] >= 0
    ensures Sum(f[..k]) <= Sum(f)
    decreases |f|
  {
    if k < |f| {
      var t := f[..|f| - 1];
      assert t[..k] == f[..k];
      SumPrefix(t, k);
    } else {
      assert f[..k] == f;
    }
  }

  /** The frequencies of at most 900001 symbols meet the weight bound of BZ2_hbMakeCodeLengths. */
  lemma FrequenciesFit(f: seq<int>, alphaSize: nat)
    requires Frequencies(f, 900001) && alphaSize <= 258
    ensures HL.Total(f, alphaSize) <= HL.MAX_TOTAL
  {
    TotalBound(f, alphaSize);
    SumPrefix(f, alphaSize);
  }

  /** How often v is among the first k symbols that are in groups of table t. */
  ghost function InGroups(syms: seq<int>, sel: seq<int>, t: int, v: int, k: nat): nat
    requires k <= |syms|
  {
    if k == 0 then 0
    else
      InGroups(syms, sel, t, v, k - 1)
      + if (k - 1) / G_SIZE < |sel| && sel[(k - 1) / G_SIZE] == t && syms[k - 1] == v then 1 else 0
  }

  /** Choosing a table for the next group leaves the groups before as they are. */
  lemma {:induction false} GroupsBefore(syms: seq<int>, sel: seq<int>, bt: int, t: int, v: int, k: nat)
    requires k <= |syms| && k <= G_SIZE * |sel|
    ensures InGroups(syms, sel + [bt], t, v, k) == InGroups(syms, sel, t, v, k)
  {
    if k > 0 { GroupsBefore(syms, sel, bt, t, v, k - 1); }
  }

  /** Its symbols count for that table only. */
  lemma {:induction false} GroupAdds(syms: seq<int>, sel: seq<int>, bt: int, t: int, v: int, gs: nat, k: nat)
    requires gs == G_SIZE * |sel| <= k <= |syms| && k <= gs + G_SIZE
    ensures InGroups(syms, sel + [bt], t, v, k) ==
            InGroups(syms, sel, t, v, gs) + if t == bt then Count(syms[gs..k], v) else 0
  {
    if k == gs {
      GroupsBefore(syms, sel, bt, t, v, gs);
      assert syms[gs..k] == [];
    } else {
      GroupAdds(syms, sel, bt, t, v, gs, k - 1);
      assert syms[gs..k][..k - 1 - gs] == syms[gs..k - 1] && syms[gs..k][k - 1 - gs] == syms[k - 1];
      GroupOf(|sel|, k - 1);
    }
  }

  lemma GroupOf(g: nat, k: nat)
    requires G_SIZE * g <= k < G_SIZE * g + G_SIZE
    ensures k / G_SIZE == g
  {
  }

  /** Each table's frequencies count exactly the symbols of its groups. */
  ghost predicate Tallies(rfreq: seq<array<int>>, syms: seq<int>, sel: seq<int>, gs: nat)
    requires gs <= |syms| && Rows(rfreq)
    reads rfreq
  {
    forall t, v :: 0 <= t < |rfreq| && 0 <= v < 258 ==> rfreq[t][v] == InGroups(syms, sel, t, v, gs)
  }

  lemma TalliesNone(rfreq: seq<array<int>>, syms: seq<int>)
    requires Rows(rfreq) && forall t, v :: 0 <= t < |rfreq| && 0 <= v < 258 ==> rfreq[t][v] == 0
    ensures Tallies(rfreq, syms, [], 0)
  {
  }

  /** f is f0 with the symbols of g counted. */
  ghost predicate Adds(f0: seq<int>, f: seq<int>, g: seq<int>) {
    |f0| == |f| == 258 && forall v :: 0 <= v < 258 ==> f[v] == f0[v] + Count(g, v)
  }

  lemma AddsNone(f: seq<int>)
    requires |f| == 258
    ensures Adds(f, f, [])
  {
  }

  lemma AddsNext(f0: seq<int>, f: seq<int>, g: seq<int>, v: int)
    requires Adds(f0, f, g) && 0 <= v < 258
    ensures Adds(f0, f[v := f[v] + 1], g + [v])
  {
    assert (g + [v])[..|g|] == g;
  }

  /** The symbols of one group are counted for the table chosen. */
  method CountGroup(mtfv: array<int>, gs: int, ge: int, rfreq: array<int>, ghost total: int)
    requires rfreq != mtfv && rfreq.Length == 258 && 0 <= gs <= ge < mtfv.Length
    requires forall i :: gs <= i <= ge ==> 0 <= mtfv[i] < 258
    requires Frequencies(rfreq[..], total)
    modifies rfreq
    ensures Frequencies(rfreq[..], total + (ge + 1 - gs))
    ensures Adds(old(rfreq[..]), rfreq[..], mtfv[gs..ge + 1])
  {
    hide Sum, Adds;
    ghost var g, before := mtfv[gs..ge + 1], rfreq[..];
    AddsNone(before);
    assert g[..0] == [];
    for i := gs to ge + 1
      invariant Frequencies(rfreq[..], total + (i - gs))
      invariant Adds(before, rfreq[..], g[..i - gs])
    {
      ghost var f := rfreq[..];
      assert g[..i - gs + 1] == g[..i - gs] + [mtfv[i]];
      AddsNext(before, f, g[..i - gs], mtfv[i]);
      var v := mtfv[i];
      SumUpdate(f, v, f[v] + 1);
      rfreq[v] := rfreq[v] + 1;
      assert rfreq[..] == f[v := f[v] + 1];
    }
    assert g[..ge + 1 - gs] == g;
  }

  /** A group is counted, and the tallies are those of one group more. */
  method TallyGroup(mtfv: array<int>, gs: int, ge: int, rfreq: seq<array<int>>, bt: int, ghost nMTF: int, ghost sel: seq<int>)
    requires mtfv !in rfreq && Rows(rfreq) && 0 <= bt < |rfreq|
    requires 0 <= gs < nMTF <= mtfv.Length && gs == G_SIZE * |sel| && ge == GroupEnd(gs, nMTF)
    requires forall i :: 0 <= i < nMTF ==> 0 <= mtfv[i] < 258
    requires forall t :: 0 <= t < |rfreq| ==> Frequencies(rfreq[t][..], gs)
    requires Tallies(rfreq, mtfv[..nMTF], sel, gs)
    modifies rfreq[bt]
    ensures forall t :: 0 <= t < |rfreq| ==> Frequencies(rfreq[t][..], ge + 1)
    ensures ge + 1 <= nMTF && Tallies(rfreq, mtfv[..nMTF], sel + [bt], ge + 1)
  {
    hide Sum;
    ghost var syms := mtfv[..nMTF];
    assert syms[gs..ge + 1] == mtfv[gs..ge + 1];
    CountGroup(mtfv, gs, ge, rfreq[bt], gs);
    assert mtfv[..nMTF] == syms && rfreq[bt][..][0] == rfreq[bt][0];
    forall t, v | 0 <= t < |rfreq| && 0 <= v < 258 ensures rfreq[t][v] == InGroups(syms, sel + [bt], t, v, ge + 1) {
      GroupAdds(syms, sel, bt, t, v, gs, ge + 1);
    }
  }

  /** The last symbol of the group that starts at gs. */
  function GroupEnd(gs: int, nMTF: int): int {
    if gs + G_SIZE - 1 >= nMTF then nMTF - 1 else gs + G_SIZE - 1
  }

  method NewRows(nGroups: nat) returns (rows: seq<array<int>>)
    ensures |rows| == nGroups && Rows(rows) && forall t :: 0 <= t < nGroups ==> fresh(rows[t]) && Frequencies(rows[t][..], 0)
    ensures forall t, v :: 0 <= t < nGroups && 0 <= v < 258 ==> rows[t][v] == 0
  {
    hide Sum;
    rows := [];
    for t := 0 to nGroups
      invariant |rows| == t && Rows(rows) && forall u :: 0 <= u < t ==> fresh(rows[u]) && Frequencies(rows[u][..], 0)
      invariant forall u, v :: 0 <= u < t && 0 <= v < 258 ==> rows[u][v] == 0
    {
      var row := new int[258](_ => 0);
      SumZeros(row[..]);
      rows := rows + [row];
    }
  }

  // ----- one iteration -----

  /** Selectors for the first k groups of fifty. */
  ghost predicate Selected(sel: seq<int>, n: nat, gs: int, nMTF: int) {
    && 0 <= gs <= nMTF && (forall i :: 0 <= i < |sel| ==> 0 <= sel[i] < n)
    && if gs < nMTF then gs == G_SIZE * |sel| else |sel| == (nMTF + 49) / 50
  }

  lemma SelectedNext(sel: seq<int>, n: nat, gs: int, nMTF: int, bt: int)
    requires Selected(sel, n, gs, nMTF) && gs < nMTF && 0 <= bt < n
    ensures Selected(sel + [bt], n, GroupEnd(gs, nMTF) + 1, nMTF)
  {
  }

  /** The table for the next group. */
  method ChooseTable(mtfv: array<int>, gs: int, ge: int, nMTF: int, ghost g: nat, len: seq<array<int>>, pack: seq<array<int>>)
    returns (bt: int)
    requires 1 <= |len| <= 6 && Costed(len) && (|len| == 6 ==> PackedAll(pack, len))
    requires 0 <= gs == G_SIZE * g < nMTF <= mtfv.Length && ge == GroupEnd(gs, nMTF) && forall i :: 0 <= i < nMTF ==> 0 <= mtfv[i] <= 257
    ensures 0 <= bt < |len| && Cheapest(Values(len), Group(mtfv[..nMTF], g), bt)
  {
    hide CostOf, PackedAll, Cheapest, Group;
    var cost := NextCosts(mtfv, gs, ge, nMTF, len, pack);
    bt := BestTable(cost, |len|);
    GroupIs(mtfv[..nMTF], g, gs, ge);
    assert mtfv[..nMTF][gs..ge + 1] == mtfv[gs..ge + 1];
    CheapestIs(Values(len), mtfv[gs..ge + 1], cost[..], bt);
  }

  /** The groups before gs have their tables, and the tables their frequencies. */
  ghost predicate Assigned(rfreq: seq<array<int>>, sel: seq<int>, lens: seq<seq<int>>, syms: seq<int>, gs: int)
    reads rfreq
  {
    && 0 <= gs <= |syms| && Selected(sel, |lens|, gs, |syms|) && |sel| <= 18002
    && |rfreq| == |lens| && Rows(rfreq) && (forall t :: 0 <= t < |rfreq| ==> Frequencies(rfreq[t][..], gs))
    && Tallies(rfreq, syms, sel, gs) && Chosen(sel, lens, syms)
  }

  /** One group: its table, its selector, and the frequencies. */
  method AssignGroup(mtfv: array<int>, gs: int, ge: int, nMTF: int, len: seq<array<int>>, pack: seq<array<int>>, selector: array<int>,
                     nSelectors: nat, rfreq: seq<array<int>>)
    requires 0 < nMTF <= 900001 && nMTF <= mtfv.Length && (forall i :: 0 <= i < nMTF ==> 0 <= mtfv[i] <= 257)
    requires 2 <= |len| <= 6 && Costed(len) && selector.Length == 18002 && (|len| == 6 ==> PackedAll(pack, len))
    requires selector != mtfv && mtfv !in rfreq && selector !in rfreq && selector !in len && selector !in pack
    requires 0 <= gs < nMTF && ge == GroupEnd(gs, nMTF) && nSelectors <= 18002
    requires Assigned(rfreq, selector[..nSelectors], Values(len), mtfv[..nMTF], gs)
    requires forall t, u :: 0 <= t < |len| && 0 <= u < |rfreq| ==> len[t] != rfreq[u]
    requires forall t, u :: 0 <= t < |pack| && 0 <= u < |rfreq| ==> pack[t] != rfreq[u]
    modifies selector, rfreq
    ensures nSelectors < 18002 && Values(len) == old(Values(len)) && Costed(len) && (|len| == 6 ==> PackedAll(pack, len))
    ensures mtfv[..nMTF] == old(mtfv[..nMTF])
    ensures Assigned(rfreq, selector[..nSelectors + 1], Values(len), mtfv[..nMTF], ge + 1)
  {
    hide Sum, CostOf, Tallies, InGroups, Chosen, Cheapest, Group, Packed;
    ghost var sel, lens, syms := selector[..nSelectors], Values(len), mtfv[..nMTF];
    var bt := ChooseTable(mtfv, gs, ge, nMTF, nSelectors, len, pack);
    selector[nSelectors] := bt;
    assert selector[..nSelectors + 1] == sel + [bt];
    SelectedNext(sel, |len|, gs, nMTF, bt);
    ChosenNext(sel, lens, syms, bt);
    TallyGroup(mtfv, gs, ge, rfreq, bt, nMTF, sel);
    assert mtfv[..nMTF] == syms;
    forall t | 0 <= t < |len| ensures len[t][..] == lens[t] {}
    assert Values(len) == lens;
  }

  method AssignGroups(mtfv: array<int>, nMTF: int, len: seq<array<int>>, selector: array<int>)
    returns (nSelectors: int, rfreq: seq<array<int>>)
    requires 0 < nMTF <= 900001 && nMTF <= mtfv.Length && (forall i :: 0 <= i < nMTF ==> 0 <= mtfv[i] <= 257)
    requires 2 <= |len| <= 6 && Costed(len) && selector.Length == 18002
    requires selector != mtfv && selector !in len
    modifies selector
    ensures 0 <= nSelectors <= 18002 && Values(len) == old(Values(len)) && Costed(len)
    ensures Assigned(rfreq, selector[..nSelectors], Values(len), mtfv[..nMTF], nMTF)
    ensures forall t :: 0 <= t < |rfreq| ==> fresh(rfreq[t])
  {
    hide Assigned, PackedAll, Rows, Frequencies;
    ghost var lens, syms := Values(len), mtfv[..nMTF];
    rfreq := NewRows(|len|);
    var pack := [];
    if |len| == 6 { pack := PackLengths(len); }
    AssignedNone(rfreq, lens, syms);
    nSelectors := 0;
    assert selector[..0] == [];
    var gs := 0;
    while gs < nMTF
      invariant 0 <= nSelectors <= 18002 && 0 <= gs <= nMTF && mtfv[..nMTF] == syms && Values(len) == lens && Costed(len)
      invariant Assigned(rfreq, selector[..nSelectors], lens, syms, gs) && (|len| == 6 ==> PackedAll(pack, len))
      decreases nMTF - gs
    {
      var ge := gs + G_SIZE - 1;
      if ge >= nMTF { ge := nMTF - 1; }
      assert forall i :: 0 <= i < nMTF ==> mtfv[i] == mtfv[..nMTF][i];
      AssignGroup(mtfv, gs, ge, nMTF, len, pack, selector, nSelectors, rfreq);
      nSelectors := nSelectors + 1;
      gs := ge + 1;
    }
  }

  lemma AssignedNone(rfreq: seq<array<int>>, lens: seq<seq<int>>, syms: seq<int>)
    requires |rfreq| == |lens| && |syms| > 0 && Rows(rfreq) && forall t :: 0 <= t < |rfreq| ==> Frequencies(rfreq[t][..], 0)
    requires forall t, v :: 0 <= t < |rfreq| && 0 <= v < 258 ==> rfreq[t][v] == 0
    ensures Assigned(rfreq, [], lens, syms, 0)
  {
    hide Sum;
    TalliesNone(rfreq, syms);
  }

  /** The lengths of every table are between 1 and 17 and make Kraft's sum exactly 1. */
  ghost predicate Lengthed(len: seq<array<int>>, k: nat, alphaSize: nat)
    requires k <= |len| && alphaSize <= 258
    reads len
  {
    && Rows(len)
    && forall t :: 0 <= t < k ==>
         && (forall i :: 0 <= i < alphaSize ==> 1 <= len[t][i] <= 17)
         && HT.Kraft(len[t][..alphaSize], 17) == Pow2(17)
  }

  /** The tables recomputed from the accumulated frequencies. */
  method RecomputeTables(len: seq<array<int>>, rfreq: seq<array<int>>, alphaSize: nat)
    requires 2 <= alphaSize <= 258 && |len| == |rfreq| && Costed(len) && Rows(rfreq)
    requires forall t, u :: 0 <= t < |len| && 0 <= u < |rfreq| ==> len[t] != rfreq[u]
    requires forall t :: 0 <= t < |rfreq| ==> Frequencies(rfreq[t][..], 900001)
    modifies len
    ensures Costed(len) && Lengthed(len, |len|, alphaSize)
    ensures forall t :: 0 <= t < |len| ==> HL.BestLengths(rfreq[t][..], len[t][..alphaSize], 17)
  {
    hide HT.Kraft, Pow2, Sum, HL.Total, HT.Fib, HL.BestLengths;
    HL.CompressorLimit(alphaSize);
    for t := 0 to |len|
      invariant Costed(len) && Lengthed(len, t, alphaSize)
      invariant forall u :: 0 <= u < t ==> HL.BestLengths(rfreq[u][..], len[u][..alphaSize], 17)
    {
      FrequenciesFit(rfreq[t][..], alphaSize);
      BestTableLengths(len[t], rfreq[t], alphaSize);
    }
  }

  /** One table's lengths. */
  method BestTableLengths(len: array<int>, freq: array<int>, alphaSize: nat)
    requires len != freq && 2 <= alphaSize <= 258 == len.Length == freq.Length && Frequencies(freq[..], 900001)
    requires HL.Total(freq[..], alphaSize) <= HL.MAX_TOTAL && HT.Fib(20) > 2 * alphaSize
    modifies len
    ensures forall i :: 0 <= i < alphaSize ==> 1 <= len[i] <= 17
    ensures forall i :: alphaSize <= i < 258 ==> len[i] == old(len[i])
    ensures HT.Kraft(len[..alphaSize], 17) == Pow2(17) && HL.BestLengths(freq[..], len[..alphaSize], 17)
  {
    hide HT.Kraft, Pow2, Sum, HL.Total, HT.Fib, HL.WeightsAfter;
    ghost var rounds := HL.MakeCodeLengths(len, freq, alphaSize, 17);
    assert HL.BestAfter(freq[..], len[..alphaSize], 17, rounds);
  }

  /** The frequencies of the symbols in the groups of table t. */
  ghost function GroupFrequencies(syms: seq<int>, sel: seq<int>, t: int): (f: seq<int>)
    ensures |f| == 258 && forall v :: 0 <= v < 258 ==> f[v] == InGroups(syms, sel, t, v, |syms|)
  {
    seq(258, (v: int) requires 0 <= v < 258 => InGroups(syms, sel, t, v, |syms|))
  }

  /** Each table is the best for the groups that use it. */
  ghost predicate Best(lens: seq<seq<int>>, syms: seq<int>, sel: seq<int>) {
    forall t :: 0 <= t < |lens| ==> HL.BestLengths(GroupFrequencies(syms, sel, t), lens[t], 17)
  }

  lemma TalliedFrequencies(rfreq: seq<array<int>>, syms: seq<int>, sel: seq<int>)
    requires Rows(rfreq) && Tallies(rfreq, syms, sel, |syms|)
    ensures forall t :: 0 <= t < |rfreq| ==> rfreq[t][..] == GroupFrequencies(syms, sel, t)
  {
  }

  /** How many coding tables are used. */
  function TableCount(nMTF: int): int {
    if nMTF < 200 then 2 else if nMTF < 600 then 3 else if nMTF < 1200 then 4 else if nMTF < 2400 then 5 else 6
  }

  /** One round: every group takes its cheapest table, then every table is made the best for its groups. */
  ghost predicate RoundOf(before: seq<seq<int>>, sel: seq<int>, after: seq<seq<int>>, syms: seq<int>) {
    && |before| == |after| && |sel| == (|syms| + 49) / 50
    && Chosen(sel, before, syms) && Best(after, syms, sel)
  }

  /** A number of rounds, each from the tables of the one before. */
  ghost predicate Refined(tables: seq<seq<seq<int>>>, choices: seq<seq<int>>, syms: seq<int>, rounds: nat) {
    && |tables| == rounds + 1 && |choices| == rounds
    && forall i :: 0 <= i < rounds ==> RoundOf(tables[i], choices[i], tables[i + 1], syms)
  }

  lemma RefinedNext(tables: seq<seq<seq<int>>>, choices: seq<seq<int>>, syms: seq<int>, rounds: nat, sel: seq<int>, after: seq<seq<int>>)
    requires Refined(tables, choices, syms, rounds) && RoundOf(tables[rounds], sel, after, syms)
    ensures Refined(tables + [after], choices + [sel], syms, rounds + 1)
  {
    hide RoundOf;
  }

  lemma CheapestPrefix(len: seq<array<int>>, alphaSize: nat, group: seq<int>, bt: int)
    requires Rows(len) && alphaSize <= 258 && Cheapest(Values(len), group, bt)
    requires forall i :: 0 <= i < |group| ==> 0 <= group[i] < alphaSize
    ensures Cheapest(Lens(len, alphaSize), group, bt)
  {
    hide CostOf;
    forall t | 0 <= t < |len| ensures CostOf(Lens(len, alphaSize)[t], group) == CostOf(Values(len)[t], group) {
      CostPrefix(len[t][..], alphaSize, group);
      assert len[t][..][..alphaSize] == len[t][..alphaSize];
    }
  }

  lemma ChosenPrefix(len: seq<array<int>>, alphaSize: nat, sel: seq<int>, syms: seq<int>)
    requires Rows(len) && alphaSize <= 258 && Chosen(sel, Values(len), syms)
    requires forall i :: 0 <= i < |syms| ==> 0 <= syms[i] < alphaSize
    ensures Chosen(sel, Lens(len, alphaSize), syms)
  {
    hide Cheapest;
    forall g | 0 <= g < |sel| ensures Cheapest(Lens(len, alphaSize), Group(syms, g), sel[g]) {
      CheapestPrefix(len, alphaSize, Group(syms, g), sel[g]);
    }
  }

  /** One round on the arrays. */
  method RefineTables(mtfv: array<int>, nMTF: int, alphaSize: nat, len: seq<array<int>>, selector: array<int>)
    returns (nSelectors: int)
    requires 0 < nMTF <= 900001 && nMTF <= mtfv.Length && 2 <= alphaSize <= 258
    requires forall i :: 0 <= i < nMTF ==> 0 <= mtfv[i] < alphaSize
    requires 2 <= |len| <= 6 && Costed(len) && selector.Length == 18002
    requires selector != mtfv && selector !in len && mtfv !in len
    modifies selector, len
    ensures Costed(len) && Lengthed(len, |len|, alphaSize) && mtfv[..] == old(mtfv[..])
    ensures 0 <= nSelectors <= 18002 && Selected(selector[..nSelectors], |len|, nMTF, nMTF)
    ensures RoundOf(old(Lens(len, alphaSize)), selector[..nSelectors], Lens(len, alphaSize), mtfv[..nMTF])
  {
    hide HT.Kraft, Pow2, HL.BestLengths, Best, Chosen, Tallies, Sum;
    ghost var syms := mtfv[..];
    var rfreq;
    nSelectors, rfreq := AssignGroups(mtfv, nMTF, len, selector);
    ghost var sel := selector[..nSelectors];
    ChosenPrefix(len, alphaSize, sel, mtfv[..nMTF]);
    forall t | 0 <= t < |rfreq| ensures Frequencies(rfreq[t][..], 900001) {}
    RecomputeTables(len, rfreq, alphaSize);
    TalliedFrequencies(rfreq, syms[..nMTF], sel);
    BestHolds(len, rfreq, alphaSize, syms[..nMTF], sel);
  }

  /** BZ_N_ITERS rounds of selecting and recomputing; the last round's selectors are the ones sent. */
  method ChooseTables(mtfv: array<int>, nMTF: int, alphaSize: nat, len: seq<array<int>>, selector: array<int>)
    returns (nSelectors: int, ghost tables: seq<seq<seq<int>>>, ghost choices: seq<seq<int>>)
    requires 0 < nMTF <= 900001 && nMTF <= mtfv.Length && 2 <= alphaSize <= 258
    requires forall i :: 0 <= i < nMTF ==> 0 <= mtfv[i] < alphaSize
    requires 2 <= |len| <= 6 && Costed(len) && selector.Length == 18002
    requires selector != mtfv && selector !in len && mtfv !in len
    modifies selector, len
    ensures 0 <= nSelectors <= 18002 && Selected(selector[..nSelectors], |len|, nMTF, nMTF)
    ensures Lengthed(len, |len|, alphaSize)
    ensures Refined(tables, choices, mtfv[..nMTF], 4) && tables[0] == old(Lens(len, alphaSize))
    ensures tables[4] == Lens(len, alphaSize) && choices[3] == selector[..nSelectors]
  {
    hide Selected, HT.Kraft, Pow2, RoundOf, Lens, Refined;
    ghost var syms := mtfv[..];
    nSelectors, tables, choices := 0, [Lens(len, alphaSize)], [];
    RefinedNone(tables, syms[..nMTF]);
    for iter := 0 to 4
      invariant Costed(len) && mtfv[..] == syms && |tables| == iter + 1 && |choices| == iter
      invariant tables[0] == old(Lens(len, alphaSize)) && tables[iter] == Lens(len, alphaSize)
      invariant Refined(tables, choices, syms[..nMTF], iter)
      invariant iter > 0 ==> 0 <= nSelectors <= 18002 && Selected(selector[..nSelectors], |len|, nMTF, nMTF)
      invariant iter > 0 ==> Lengthed(len, |len|, alphaSize) && choices[iter - 1] == selector[..nSelectors]
    {
      assert forall i :: 0 <= i < nMTF ==> mtfv[i] == syms[i];
      nSelectors := RefineTables(mtfv, nMTF, alphaSize, len, selector);
      RefinedNext(tables, choices, syms[..nMTF], iter, selector[..nSelectors], Lens(len, alphaSize));
      tables, choices := tables + [Lens(len, alphaSize)], choices + [selector[..nSelectors]];
    }
  }

  lemma RefinedNone(tables: seq<seq<seq<int>>>, syms: seq<int>)
    requires |tables| == 1
    ensures Refined(tables, [], syms, 0)
  {
  }

  lemma BestHolds(len: seq<array<int>>, rfreq: seq<array<int>>, alphaSize: nat, syms: seq<int>, sel: seq<int>)
    requires |len| == |rfreq| && Rows(len) && Rows(rfreq) && alphaSize <= 258
    requires forall t :: 0 <= t < |len| ==> HL.BestLengths(rfreq[t][..], len[t][..alphaSize], 17)
    requires forall t :: 0 <= t < |rfreq| ==> rfreq[t][..] == GroupFrequencies(syms, sel, t)
    ensures Best(Lens(len, alphaSize), syms, sel)
  {
    hide HL.BestLengths;
  }

  // ----- assigning the codes -----

  method LengthExtremes(len: array<int>, alphaSize: int) returns (minLen: int, maxLen: int)
    requires 0 < alphaSize <= len.Length && forall i :: 0 <= i < alphaSize ==> 1 <= len[i] <= 17
    ensures 1 <= minLen <= maxLen <= 17 && forall i :: 0 <= i < alphaSize ==> minLen <= len[i] <= maxLen
  {
    minLen := 32;
    maxLen := 0;
    for i := 0 to alphaSize
      invariant i > 0 ==> 1 <= minLen <= maxLen <= 17
      invariant i == 0 ==> minLen == 32 && maxLen == 0
      invariant forall k :: 0 <= k < i ==> minLen <= len[k] <= maxLen
    {
      if len[i] > maxLen { maxLen := len[i]; }
      if len[i] < minLen { minLen := len[i]; }
    }
  }

  /** The codes of every table. */
  ghost predicate Coded(code: seq<array<int>>, lens: seq<seq<int>>, k: nat)
    requires k <= |code| && k <= |lens|
    reads code
  {
    && (forall t :: 0 <= t < k ==> code[t].Length == 258 && |lens[t]| <= 258)
    && forall t, i :: 0 <= t < k && 0 <= i < |lens[t]| && lens[t][i] >= 0 ==> code[t][i] == CC.Code(lens[t], i)
  }

  /** The lengths sent for each table. */
  ghost function Lens(len: seq<array<int>>, alphaSize: nat): (v: seq<seq<int>>)
    requires alphaSize <= 258 && Rows(len)
    reads len
    ensures |v| == |len| && forall t :: 0 <= t < |len| ==> v[t] == len[t][..alphaSize]
  {
    seq(|len|, (t: int) requires 0 <= t < |len| && Rows(len) reads len => len[t][..alphaSize])
  }

  method AssignTableCodes(len: array<int>, alphaSize: nat) returns (row: array<int>)
    requires 0 < alphaSize <= len.Length == 258 && forall i :: 0 <= i < alphaSize ==> 1 <= len[i] <= 17
    ensures fresh(row) && row.Length == 258
    ensures forall i :: 0 <= i < alphaSize ==> row[i] == CC.Code(len[..alphaSize], i)
  {
    hide CC.Code;
    var minLen, maxLen := LengthExtremes(len, alphaSize);
    row := new int[258];
    CC.AssignCodes(row, len, minLen, maxLen, alphaSize);
  }

  method AssignAllCodes(len: seq<array<int>>, alphaSize: nat) returns (code: seq<array<int>>)
    requires 2 <= alphaSize <= 258 && Lengthed(len, |len|, alphaSize)
    ensures |code| == |len| && Coded(code, Lens(len, alphaSize), |len|)
    ensures forall t :: 0 <= t < |code| ==> fresh(code[t])
  {
    hide HT.Kraft, Pow2, CC.Code;
    ghost var lens := Lens(len, alphaSize);
    code := [];
    for t := 0 to |len|
      invariant |code| == t && Coded(code, lens, t)
      invariant forall u :: 0 <= u < t ==> fresh(code[u])
    {
      var row := AssignTableCodes(len[t], alphaSize);
      code := code + [row];
    }
  }

  /** The tables satisfy what the format asks for. */
  lemma LensDecodable(len: seq<array<int>>, alphaSize: nat)
    requires 2 <= alphaSize <= 258 && Lengthed(len, |len|, alphaSize)
    ensures (forall t :: 0 <= t < |len| ==> Decodable(Lens(len, alphaSize)[t], alphaSize)) && Short(Lens(len, alphaSize))
  {
    hide HT.Kraft, Pow2;
    forall t | 0 <= t < |len| ensures Decodable(Lens(len, alphaSize)[t], alphaSize) {
      KraftFits(len[t][..alphaSize]);
    }
  }

  lemma KraftFits(l: seq<int>)
    requires (forall i :: 0 <= i < |l| ==> 0 <= l[i] <= 17) && HT.Kraft(l, 17) == Pow2(17)
    ensures HT.Kraft(l, CC.LONGEST) == Pow2(CC.LONGEST)
  {
    hide HT.Kraft, Pow2;
    HT.KraftScale(l, 17, 3);
    Pow2Add(17, 3);
  }

  // ----- the block data -----

  lemma DataNext(syms: seq<int>, sel: seq<int>, lens: seq<seq<int>>, k: nat)
    requires k < |syms| && Codable(syms, sel, lens, k)
    ensures DataBits(syms, sel, lens, k) == DT.CodeBits(lens[sel[k / G_SIZE]], syms[k]) + DataBits(syms, sel, lens, k + 1)
  {
  }

  lemma DataEnd(syms: seq<int>, sel: seq<int>, lens: seq<seq<int>>)
    ensures DataBits(syms, sel, lens, |syms|) == []
  {
  }

  /** One code is written. */
  method SendCode(w: BitWriter, len: array<int>, code: array<int>, sym: int, ghost lens: seq<int>)
    requires w.Valid() && Decodable(lens, |lens|) && 0 <= sym < |lens| <= len.Length && sym < code.Length
    requires len[..|lens|] == lens && code[sym] == CC.Code(lens, sym)
    modifies w
    ensures w.Valid() && w.Contents() == old(w.Contents()) + DT.CodeBits(lens, sym)
  {
    hide HT.Kraft, Pow2, CC.Code, BitsOf;
    DT.CodeFits(lens, sym);
    assert len[sym] == lens[sym];
    w.Write(len[sym], code[sym]);
  }

  /** The symbols of one group. */
  method SendGroupCodes(w: BitWriter, mtfv: array<int>, gs: int, ge: int, len: array<int>, code: array<int>,
                        selCtr: int,
                        ghost syms: seq<int>, ghost sel: seq<int>, ghost lens: seq<seq<int>>)
    requires w.Valid() && 0 <= gs <= ge < |syms| <= mtfv.Length && mtfv[..|syms|] == syms
    requires 0 <= selCtr < |sel| && 0 <= sel[selCtr] < |lens| && gs == G_SIZE * selCtr && ge < gs + G_SIZE
    requires var l := lens[sel[selCtr]];
             && Decodable(l, |l|) && |l| <= len.Length && |l| <= code.Length && len[..|l|] == l
             && (forall i :: 0 <= i < |l| ==> code[i] == CC.Code(l, i))
             && forall i :: gs <= i <= ge ==> 0 <= syms[i] < |l|
    modifies w
    ensures w.Valid()
    ensures w.Contents() + DataBits(syms, sel, lens, ge + 1) == old(w.Contents()) + DataBits(syms, sel, lens, gs)
  {
    hide HT.Kraft, Pow2, CC.Code, BitsOf, DataBits, DT.CodeBits;
    ghost var l := lens[sel[selCtr]];
    for i := gs to ge + 1
      invariant w.Valid()
      invariant w.Contents() + DataBits(syms, sel, lens, i) == old(w.Contents()) + DataBits(syms, sel, lens, gs)
    {
      assert i / G_SIZE == selCtr;
      assert mtfv[i] == mtfv[..|syms|][i];
      DataNext(syms, sel, lens, i);
      SendCode(w, len, code, mtfv[i], l);
    }
  }
}
